/**
  The notation of Go types as a relation between texts and types, and the proof
  that the parser accepts exactly the texts that denote a type
  (pwndbg/aglib/godbg.py:1356-1516).
 */
module GoTypeNotation {
  import opened Options
  import opened PyInt
  import opened GoTypeText

  // ----- The notation -----

  const LOWER := "0123456789abcdef"
  const UPPER := "0123456789ABCDEF"

  predicate DigitFor(c: char, d: nat) {
    d < 16 && (LOWER[d] == c || UPPER[d] == c)
  }

  /** The number whose digits are `ds`, the most significant first. */
  function FromDigits(ds: seq<nat>, base: nat): nat {
    if ds == [] then 0 else FromDigits(ds[..|ds| - 1], base) * base + ds[|ds| - 1]
  }

  predicate Spelled(s: string, ds: seq<nat>, base: nat) {
    |s| == |ds| > 0 && forall i | 0 <= i < |s| :: ds[i] < base && DigitFor(s[i], ds[i])
  }

  /** `s` has the digits of `n`. */
  ghost predicate Spells(s: string, base: nat, n: nat) {
    exists ds :: Spelled(s, ds, base) && n == FromDigits(ds, base)
  }

  /** A number in decimal without leading zeros (unless it is zero), in hexadecimal or in binary. */
  ghost predicate Numeral(s: string, n: nat) {
    || (Spells(s, 10, n) && (s[0] == '0' ==> n == 0))
    || (|s| > 2 && s[..2] in {"0x", "0X"} && Spells(s[2..], 16, n))
    || (|s| > 2 && s[..2] in {"0b", "0B"} && Spells(s[2..], 2, n))
  }

  predicate Semicolons(s: string) {
    forall i | 0 <= i < |s| :: s[i] == ';'
  }

  /** An ASCII letter or an underscore, by its code. */
  predicate Letter(c: char) {
    var code := c as int;
    65 <= code < 65 + 26 || 97 <= code < 97 + 26 || code == 95
  }

  predicate Digit(c: char) {
    48 <= c as int < 48 + 10
  }

  /** A field name: letters, digits and underscores, no digit in front. */
  predicate Identifier(s: string) {
    s != "" && Letter(s[0]) && forall i | 0 < i < |s| :: Letter(s[i]) || Digit(s[i])
  }

  /** The basic types: integers of every width with and without sign, floating-point and complex numbers, and the rest. */
  predicate BasicName(s: string) {
    || s in {"bool", "byte", "rune", "string", "any", "interface", "funcptr", "uintptr"}
    || s in {"float32", "float64", "complex64", "complex128"}
    || exists width | width in {"", "8", "16", "32", "64"} :: s == "int" + width || s == "uint" + width
  }

  /** The whole of `s` denotes the type `t`. */
  ghost predicate Denotes(s: string, t: GoType)
    decreases t, 0
  {
    match t
    case BasicT(meta, name, extra) => meta == None && extra == [] && s == name && BasicName(name)
    case SliceT(meta, inner) => meta == None && exists u :: s == "[]" + u && Denotes(u, inner)
    case PointerT(meta, inner) => meta == None && exists u :: s == "*" + u && Denotes(u, inner)
    case ArrayT(meta, inner, count) =>
      meta == None && exists d, u :: s == "[" + (d + ("]" + u)) && Numeral(d, count) && Denotes(u, inner)
    case MapT(meta, key, val) =>
      meta == None && exists u, w :: s == "map[" + (u + ("]" + w)) && Denotes(u, key) && Denotes(w, val)
    case StructT(meta, fields, size, algn, tag) =>
      && meta == None && algn == None && tag == None
      && exists d, body :: s == "struct(" + (d + ("){" + (body + "}"))) && Numeral(d, size) && DenoteFields(body, fields, true)
    case RuntimeT(meta, size, addr) =>
      meta == None && exists d, e :: s == "runtime(" + (d + (")" + e)) && Numeral(d, size) && Numeral(e, addr)
    case BackrefT(_) => false
  }

  /** Fields as offset:name:type, with semicolons between them and any number of them in front. */
  ghost predicate DenoteFields(body: string, fields: seq<Field>, isFirst: bool)
    decreases fields, 1
  {
    if fields == [] then body == ""
    else exists semis, text, more :: FieldThen(body, semis, text, more, isFirst) && DenoteField(text, fields[0]) && DenoteFields(more, fields[1..], false)
  }

  predicate FieldThen(body: string, semis: string, text: string, more: string, isFirst: bool) {
    body == semis + (text + more) && Semicolons(semis) && (isFirst || semis != "")
  }

  ghost predicate DenoteField(text: string, f: Field)
    decreases f
  {
    match f.ty
    case Typed(t) => exists d, u :: text == d + (":" + (f.name + (":" + u))) && Numeral(d, f.off) && Identifier(f.name) && Denotes(u, t)
    case Named(_) => false
  }

  lemma LetterIs(c: char)
    ensures Letter(c) <==> IsIdentFirst(c)
    ensures Letter(c) || Digit(c) <==> IsIdentRest(c)
  {
  }

  lemma IdentifierIs(s: string)
    ensures Identifier(s) <==> IsIdent(s)
  {
    forall c ensures (Letter(c) <==> IsIdentFirst(c)) && (Letter(c) || Digit(c) <==> IsIdentRest(c)) {
      LetterIs(c);
    }
    hide Letter;
    hide Digit;
    hide IsIdentFirst;
    hide IsIdentRest;
  }

  lemma BasicNameIs(s: string)
    ensures BasicName(s) <==> IsKnown(s)
  {
    assert "int" + "" == "int" && "int" + "8" == "int8" && "int" + "16" == "int16" && "int" + "32" == "int32" && "int" + "64" == "int64";
    assert "uint" + "" == "uint" && "uint" + "8" == "uint8" && "uint" + "16" == "uint16" && "uint" + "32" == "uint32" && "uint" + "64" == "uint64";
  }

  // ----- Numbers -----

  lemma DigitIs(c: char, d: nat)
    requires DigitFor(c, d)
    ensures DigitValue(c) == d && IsHexDigit(c) && !IsSpace(c) && c != '_' && c != '+' && c != '-'
    ensures d < 10 ==> '0' <= c <= '9'
  {
  }

  lemma IsDigitFor(c: char)
    requires DigitValue(c) < 16
    ensures DigitFor(c, DigitValue(c))
  {
  }

  lemma {:induction false} DigitsNumber(s: string, ds: seq<nat>, base: nat)
    requires 2 <= base <= 16 && Spelled(s, ds, base)
    ensures Number(s, base) == Some(FromDigits(ds, base))
    decreases |s|
  {
    var front, last := s[..|s| - 1], s[|s| - 1];
    FrontSpelled(s, ds, base);
    assert s == front + [last];
    hide Spelled;
    hide DigitValue;
    hide Number;
    if |s| == 1 {
      NumberOne(last, base);
      assert ds[..0] == [];
      assert FromDigits([], base) == 0;
    } else {
      DigitsNumber(front, ds[..|s| - 1], base);
      NumberAppend(front, last, base);
    }
  }

  lemma FrontSpelled(s: string, ds: seq<nat>, base: nat)
    requires base <= 16 && Spelled(s, ds, base)
    ensures |ds| == |s| > 0 && DigitValue(s[|s| - 1]) == ds[|s| - 1] < base
    ensures |s| > 1 ==> Spelled(s[..|s| - 1], ds[..|s| - 1], base)
  {
    DigitIs(s[|s| - 1], ds[|s| - 1]);
    hide DigitFor;
  }

  lemma DigitsPlain(s: string, ds: seq<nat>, base: nat)
    requires 2 <= base <= 16 && Spelled(s, ds, base)
    ensures forall i | 0 <= i < |s| :: IsHexDigit(s[i]) && s[i] != '_' && (base == 10 ==> '0' <= s[i] <= '9')
  {
    forall i | 0 <= i < |s| ensures IsHexDigit(s[i]) && s[i] != '_' && (base == 10 ==> '0' <= s[i] <= '9') {
      DigitIs(s[i], ds[i]);
    }
  }

  lemma SpellsNumber(s: string, base: nat, n: nat)
    requires 2 <= base <= 16 && Spells(s, base, n)
    ensures s != "" && Number(s, base) == Some(n)
    ensures forall i | 0 <= i < |s| :: IsHexDigit(s[i]) && s[i] != '_' && (base == 10 ==> '0' <= s[i] <= '9')
  {
    var ds :| Spelled(s, ds, base) && n == FromDigits(ds, base);
    DigitsNumber(s, ds, base);
    DigitsPlain(s, ds, base);
  }

  lemma NumberFront(s: string, base: nat)
    requires 2 <= base <= 16 && Number(s, base).Some? && '_' !in s
    ensures s != "" && DigitValue(s[|s| - 1]) < base && DigitFor(s[|s| - 1], DigitValue(s[|s| - 1]))
    ensures |s| == 1 ==> Number(s, base).value == DigitValue(s[0])
    ensures |s| > 1 ==> Number(s[..|s| - 1], base).Some? && '_' !in s[..|s| - 1]
    ensures |s| > 1 ==> Number(s, base).value == Number(s[..|s| - 1], base).value * base + DigitValue(s[|s| - 1])
  {
    var last := s[|s| - 1];
    IsDigitFor(last);
    if |s| > 1 {
      assert s[|s| - 2] in s;
      NumberUnrolled(s, base);
      ShiftedIs(Number(s[..|s| - 1], base).value, base, DigitValue(last));
    }
    hide DigitFor;
  }

  lemma DigitAdds(s: string, ds: seq<nat>, d: nat, base: nat)
    requires base <= 16 && s != "" && d < base && DigitFor(s[|s| - 1], d)
    requires if |s| == 1 then ds == [] else Spelled(s[..|s| - 1], ds, base)
    ensures Spelled(s, ds + [d], base) && FromDigits(ds + [d], base) == FromDigits(ds, base) * base + d
  {
    hide DigitFor;
    assert (ds + [d])[..|ds|] == ds;
  }

  lemma {:induction false} NumberDigits(s: string, base: nat) returns (ds: seq<nat>)
    requires 2 <= base <= 16 && Number(s, base).Some? && '_' !in s
    ensures Spelled(s, ds, base) && FromDigits(ds, base) == Number(s, base).value
    decreases |s|
  {
    hide *;
    NumberFront(s, base);
    var rest := [];
    NoDigits(base);
    if |s| > 1 {
      rest := NumberDigits(s[..|s| - 1], base);
    }
    ds := rest + [DigitValue(s[|s| - 1])];
    DigitAdds(s, rest, DigitValue(s[|s| - 1]), base);
  }

  lemma NoDigits(base: nat)
    ensures FromDigits([], base) == 0
  {
  }

  lemma NumberSpells(s: string, base: nat)
    requires 2 <= base <= 16 && Number(s, base).Some? && '_' !in s
    ensures Spells(s, base, Number(s, base).value)
  {
    var ds := NumberDigits(s, base);
  }

  lemma PlainNumber(s: string)
    requires s != "" && forall i | 0 <= i < |s| :: IsHexDigit(s[i])
    ensures Int(s, 0) == var m := Magnitude(s, 0); if m.None? then None else Some(m.value)
  {
    assert IsHexDigit(s[0]) && IsHexDigit(s[|s| - 1]);
    NotStripped(s);
    hide Magnitude;
    hide StripLeft;
    hide StripRight;
  }

  // ----- Numerals are what is read as a number -----

  predicate AllHex(s: string) {
    forall i | 0 <= i < |s| :: IsHexDigit(s[i])
  }

  lemma DecimalRead(s: string, n: nat)
    requires Spells(s, 10, n) && (s[0] == '0' ==> n == 0)
    ensures AllHex(s) && Magnitude(s, 0) == Some(n)
  {
    SpellsNumber(s, 10, n);
    hide Number;
    hide Spells;
  }

  lemma PrefixedRead(s: string, base: nat, n: nat)
    requires |s| > 2 && s[0] == '0' && Spells(s[2..], base, n)
    requires (base == 16 && s[1] in {'x', 'X'}) || (base == 2 && s[1] in {'b', 'B'})
    ensures AllHex(s) && Magnitude(s, 0) == Some(n)
  {
    var rest := s[2..];
    SpellsNumber(rest, base, n);
    hide Number;
    hide Spells;
    forall i | 0 <= i < |s| ensures IsHexDigit(s[i]) {
      if i >= 2 {
        assert s[i] == rest[i - 2];
      }
    }
    assert rest[0] != '_';
  }

  lemma NumeralRead(s: string, n: nat)
    requires Numeral(s, n)
    ensures s != "" && AllHex(s) && Int(s, 0) == Some(n)
  {
    hide Magnitude;
    hide Int;
    hide FromDigits;
    if Spells(s, 10, n) && (s[0] == '0' ==> n == 0) {
      DecimalRead(s, n);
    } else {
      assert s[0] == s[..2][0] && s[1] == s[..2][1];
      PrefixedRead(s, if s[..2] in {"0x", "0X"} && Spells(s[2..], 16, n) then 16 else 2, n);
    }
    PlainNumber(s);
  }

  lemma ReadNumeral(s: string)
    requires s != "" && AllHex(s) && Int(s, 0).Some?
    ensures Int(s, 0).value >= 0 && Numeral(s, Int(s, 0).value)
  {
    PlainNumber(s);
    hide Int;
    hide Number;
    if HasPrefix(s, 'x') {
      assert s[..2] == [s[0], s[1]];
      assert s[2] in s[2..] && forall c | c in s[2..] :: IsHexDigit(c);
      NumberSpells(s[2..], 16);
    } else if HasPrefix(s, 'b') {
      assert s[..2] == [s[0], s[1]];
      NumberSpells(s[2..], 2);
    } else {
      NumberSpells(s, 10);
    }
  }

  // ----- Scanning -----

  /** What may follow a type inside another one. */
  predicate Stops(rest: string) {
    rest == "" || rest[0] in {']', ';', '}'}
  }

  lemma {:induction false} SpanOf(s: string, rest: string, p: char -> bool)
    requires forall i | 0 <= i < |s| :: p(s[i])
    requires rest == "" || !p(rest[0])
    ensures Span(s + rest, p) == |s|
    decreases |s|
  {
    if s != "" {
      assert (s + rest)[1..] == s[1..] + rest;
      SpanOf(s[1..], rest, p);
    } else {
      assert s + rest == rest;
    }
  }

  lemma ReadIdent(name: string, rest: string)
    requires IsIdent(name) && (rest == "" || !IsIdentRest(rest[0]))
    ensures ParseIdent(name + rest) == Parsed(name, rest)
  {
    SpanOf(name, rest, IsIdentRest);
    var s := name + rest;
    assert s[..|name|] == name && s[|name|..] == rest;
  }

  lemma Prefixed(p: string, rest: string)
    ensures StartsWith(p + rest, p) && (p + rest)[|p|..] == rest
  {
  }

  /** Texts with different characters at some place are not prefixes of each other. */
  lemma Differs(s: string, p: string, i: nat)
    requires i < |p| && i < |s| && s[i] != p[i]
    ensures !StartsWith(s, p)
  {
    assert |p| <= |s| ==> s[..|p|][i] == s[i];
  }

  lemma KnownIsIdent(name: string)
    requires IsKnown(name)
    ensures IsIdent(name) && name[0] != '['
  {
    assert name != "";
    assert IsIdentFirst(name[0]);
    hide IsKnown;
  }

  /** A basic name is not taken for one of the keywords, which end in a bracket. */
  lemma NotKeyword(name: string, rest: string, p: string)
    requires IsIdent(name) && Stops(rest)
    requires |p| >= 2 && p[|p| - 1] in {'(', '['}
    requires forall i | 0 <= i < |p| - 1 :: p[i] !in {']', ';', '}'}
    ensures !StartsWith(name + rest, p)
  {
    var s := name + rest;
    if |name| >= |p| {
      assert IsIdentRest(name[|p| - 1]);
      Differs(s, p, |p| - 1);
    } else if |s| >= |p| {
      Differs(s, p, |name|);
    }
  }

  /** A parser that does not see its keyword does not match. */
  lemma NotTried(s: string)
    ensures !StartsWith(s, "runtime(") ==> ParseRuntime(s).NoMatch?
    ensures !StartsWith(s, "struct(") ==> ParseStruct(s).NoMatch?
    ensures !StartsWith(s, "map[") ==> ParseMap(s).NoMatch?
    ensures !StartsWith(s, "[") ==> ParseArray(s).NoMatch?
    ensures !StartsWith(s, "*") ==> ParsePointer(s).NoMatch?
    ensures !StartsWith(s, "[]") ==> ParseSlice(s).NoMatch?
  {
  }

  /** What a text's first character rules out. */
  lemma ByFirst(s: string)
    requires s != ""
    ensures s[0] != 'r' ==> ParseRuntime(s).NoMatch?
    ensures s[0] != 's' ==> ParseStruct(s).NoMatch?
    ensures s[0] != 'm' ==> ParseMap(s).NoMatch?
    ensures s[0] != '[' ==> ParseArray(s).NoMatch? && ParseSlice(s).NoMatch?
    ensures s[0] != '*' ==> ParsePointer(s).NoMatch?
    ensures |s| > 1 && !IsHexDigit(s[1]) ==> ParseArray(s).NoMatch?
  {
    hide *;
    NotTried(s);
    NoLength(s);
    FirstDiffers(s, "runtime(");
    FirstDiffers(s, "struct(");
    FirstDiffers(s, "map[");
    FirstDiffers(s, "[");
    FirstDiffers(s, "[]");
    FirstDiffers(s, "*");
  }

  lemma FirstDiffers(s: string, p: string)
    requires s != "" && p != ""
    ensures s[0] != p[0] ==> !StartsWith(s, p)
  {
    if s[0] != p[0] {
      Differs(s, p, 0);
    }
  }

  /** Behind the bracket of an array type there is a number. */
  lemma NoLength(s: string)
    ensures |s| > 1 && !IsHexDigit(s[1]) ==> ParseArray(s).NoMatch?
  {
    hide ParseType;
    hide IsHexDigit;
  }

  /** The first `k` parsers, in the order they are tried, do not match. */
  predicate Skipped(s: string, k: nat) {
    && (k > 0 ==> ParseRuntime(s).NoMatch?)
    && (k > 1 ==> ParseStruct(s).NoMatch?)
    && (k > 2 ==> ParseMap(s).NoMatch?)
    && (k > 3 ==> ParseArray(s).NoMatch?)
    && (k > 4 ==> ParsePointer(s).NoMatch?)
    && (k > 5 ==> ParseSlice(s).NoMatch?)
  }

  lemma InOrder(s: string, p: Parse<GoType>)
    requires p.Parsed?
    ensures p == ParseRuntime(s) ==> ParseType(s) == p
    ensures Skipped(s, 1) && p == ParseStruct(s) ==> ParseType(s) == p
    ensures Skipped(s, 2) && p == ParseMap(s) ==> ParseType(s) == p
    ensures Skipped(s, 3) && p == ParseArray(s) ==> ParseType(s) == p
    ensures Skipped(s, 4) && p == ParsePointer(s) ==> ParseType(s) == p
    ensures Skipped(s, 5) && p == ParseSlice(s) ==> ParseType(s) == p
    ensures Skipped(s, 6) && p == ParseBasic(s) ==> ParseType(s) == p
  {
    hide ParseRuntime;
    hide ParseStruct;
    hide ParseMap;
    hide ParseArray;
    hide ParsePointer;
    hide ParseSlice;
    hide ParseBasic;
  }


  lemma NumeralParsed(d: string, n: nat, rest: string)
    requires Numeral(d, n) && (rest == "" || !IsHexDigit(rest[0]))
    ensures ParsePosint(d + rest) == Parsed(n, rest)
  {
    NumeralRead(d, n);
    hide Numeral;
    hide Int;
    SpanOf(d, rest, IsHexDigit);
    var s := d + rest;
    assert s[..|d|] == d && s[|d|..] == rest && s[0] == d[0];
  }

  lemma ParsedNumeral(s: string) returns (d: string)
    requires ParsePosint(s).Parsed?
    ensures s == d + ParsePosint(s).rest && Numeral(d, ParsePosint(s).value)
    ensures var rest := ParsePosint(s).rest; rest == "" || !IsHexDigit(rest[0])
  {
    var n := Span(s, IsHexDigit);
    d := s[..n];
    assert AllHex(d);
    hide Span;
    hide Int;
    hide IsHexDigit;
    ReadNumeral(d);
    hide Numeral;
  }

  lemma ParsedIdent(s: string) returns (name: string)
    requires ParseIdent(s).Parsed?
    ensures s == name + ParseIdent(s).rest && name == ParseIdent(s).value && IsIdent(name)
  {
    name := ParseIdent(s).value;
  }

  lemma Starts(s: string, p: string) returns (rest: string)
    requires StartsWith(s, p)
    ensures s == p + rest && rest == s[|p|..]
  {
    rest := s[|p|..];
  }

  // ----- Whatever denotes a type is parsed -----

  lemma {:induction false} DenotesParsed(u: string, t: GoType, rest: string)
    requires Denotes(u, t) && Stops(rest)
    ensures ParseType(u + rest) == Parsed(t, rest)
    decreases t, 0
  {
    match t
    case BasicT(_, name, _) =>
      BasicNameIs(name);
      hide *;
      BasicParsed(name, rest);
    case SliceT(_, inner) =>
      var w := SliceParts(u, inner);
      hide *;
      DenotesParsed(w, inner, rest);
      SliceParsed(w + rest, inner, rest);
      Regroup("[]", w, rest);
    case PointerT(_, inner) =>
      var w := PointerParts(u, inner);
      hide *;
      DenotesParsed(w, inner, rest);
      PointerParsed(w + rest, inner, rest);
      Regroup("*", w, rest);
    case ArrayT(_, inner, count) =>
      var d, w := ArrayParts(u, inner, count);
      hide *;
      DenotesParsed(w, inner, rest);
      ArrayParsed(d, count, w + rest, inner, rest);
      RegroupTwo("[", d, "]", w, rest);
    case MapT(_, key, val) =>
      var k, w := MapParts(u, key, val);
      ClosingStops(']', w + rest);
      hide *;
      DenotesParsed(k, key, "]" + (w + rest));
      DenotesParsed(w, val, rest);
      MapParsed(k + ("]" + (w + rest)), w + rest, key, val, rest);
      RegroupTwo("map[", k, "]", w, rest);
    case StructT(_, fields, size, _, _) =>
      var d, body := StructParts(u, fields, size);
      hide *;
      FieldsParsed(body, fields, true, [], size, rest);
      assert [] + fields == fields;
      StructParsed(d, size, body + ("}" + rest), t, rest);
      RegroupTwo("struct(", d, "){", body + "}", rest);
      Regroup(body, "}", rest);
    case RuntimeT(_, size, addr) =>
      var d, e := RuntimeParts(u, size, addr);
      hide *;
      RuntimeParsed(d, size, e, addr, rest);
      RegroupTwo("runtime(", d, ")", e, rest);
  }

  lemma Regroup(a: string, b: string, rest: string)
    ensures a + b + rest == a + (b + rest)
  {
  }

  lemma RegroupTwo(a: string, b: string, c: string, d: string, rest: string)
    ensures a + (b + (c + d)) + rest == a + (b + (c + (d + rest)))
  {
  }

  lemma ClosingStops(c: char, rest: string)
    requires c in {']', ';', '}'}
    ensures Stops([c] + rest)
  {
  }

  lemma SliceParts(u: string, inner: GoType) returns (w: string)
    requires Denotes(u, SliceT(None, inner))
    ensures u == "[]" + w && Denotes(w, inner)
  {
    w :| u == "[]" + w && Denotes(w, inner);
  }

  lemma PointerParts(u: string, inner: GoType) returns (w: string)
    requires Denotes(u, PointerT(None, inner))
    ensures u == "*" + w && Denotes(w, inner)
  {
    w :| u == "*" + w && Denotes(w, inner);
  }

  lemma ArrayParts(u: string, inner: GoType, count: nat) returns (d: string, w: string)
    requires Denotes(u, ArrayT(None, inner, count))
    ensures u == "[" + (d + ("]" + w)) && Numeral(d, count) && Denotes(w, inner)
  {
    d, w :| u == "[" + (d + ("]" + w)) && Numeral(d, count) && Denotes(w, inner);
  }

  lemma MapParts(u: string, key: GoType, val: GoType) returns (k: string, w: string)
    requires Denotes(u, MapT(None, key, val))
    ensures u == "map[" + (k + ("]" + w)) && Denotes(k, key) && Denotes(w, val)
  {
    k, w :| u == "map[" + (k + ("]" + w)) && Denotes(k, key) && Denotes(w, val);
  }

  lemma StructParts(u: string, fields: seq<Field>, size: nat) returns (d: string, body: string)
    requires Denotes(u, StructT(None, fields, size, None, None))
    ensures u == "struct(" + (d + ("){" + (body + "}"))) && Numeral(d, size) && DenoteFields(body, fields, true)
  {
    d, body :| u == "struct(" + (d + ("){" + (body + "}"))) && Numeral(d, size) && DenoteFields(body, fields, true);
  }

  lemma RuntimeParts(u: string, size: nat, addr: nat) returns (d: string, e: string)
    requires Denotes(u, RuntimeT(None, size, addr))
    ensures u == "runtime(" + (d + (")" + e)) && Numeral(d, size) && Numeral(e, addr)
  {
    d, e :| u == "runtime(" + (d + (")" + e)) && Numeral(d, size) && Numeral(e, addr);
  }

  lemma FieldsParts(body: string, fields: seq<Field>, isFirst: bool) returns (semis: string, text: string, more: string)
    requires DenoteFields(body, fields, isFirst) && fields != []
    ensures FieldThen(body, semis, text, more, isFirst) && DenoteField(text, fields[0]) && DenoteFields(more, fields[1..], false)
  {
    semis, text, more :| FieldThen(body, semis, text, more, isFirst) && DenoteField(text, fields[0]) && DenoteFields(more, fields[1..], false);
  }

  lemma FieldParts(text: string, f: Field) returns (d: string, u: string)
    requires DenoteField(text, f)
    ensures f.ty.Typed? && text == d + (":" + (f.name + (":" + u))) && Numeral(d, f.off) && Identifier(f.name) && Denotes(u, f.ty.t)
  {
    d, u :| text == d + (":" + (f.name + (":" + u))) && Numeral(d, f.off) && Identifier(f.name) && Denotes(u, f.ty.t);
  }

  lemma BasicParsed(name: string, rest: string)
    requires IsKnown(name) && Stops(rest)
    ensures ParseType(name + rest) == Parsed(BasicT(None, name, []), rest)
  {
    var s := name + rest;
    KnownIsIdent(name);
    hide IsKnown;
    ReadIdent(name, rest);
    NotKeyword(name, rest, "runtime(");
    NotKeyword(name, rest, "struct(");
    NotKeyword(name, rest, "map[");
    NotTried(s);
    assert s[0] == name[0];
    ByFirst(s);
    InOrder(s, Parsed(BasicT(None, name, []), rest));
  }

  lemma SliceParsed(tail: string, inner: GoType, rest: string)
    requires ParseType(tail) == Parsed(inner, rest)
    ensures ParseType("[]" + tail) == Parsed(SliceT(None, inner), rest)
  {
    hide ParseType;
    var s := "[]" + tail;
    Prefixed("[]", tail);
    ByFirst(s);
    InOrder(s, Parsed(SliceT(None, inner), rest));
  }

  lemma PointerParsed(tail: string, inner: GoType, rest: string)
    requires ParseType(tail) == Parsed(inner, rest)
    ensures ParseType("*" + tail) == Parsed(PointerT(None, inner), rest)
  {
    hide ParseType;
    var s := "*" + tail;
    Prefixed("*", tail);
    ByFirst(s);
    InOrder(s, Parsed(PointerT(None, inner), rest));
  }

  lemma ArrayParsed(d: string, count: nat, tail: string, inner: GoType, rest: string)
    requires Numeral(d, count) && ParseType(tail) == Parsed(inner, rest)
    ensures ParseType("[" + (d + ("]" + tail))) == Parsed(ArrayT(None, inner, count), rest)
  {
    hide ParseType;
    hide Numeral;
    hide ParsePosint;
    var afterOpen := d + ("]" + tail);
    var s := "[" + afterOpen;
    Prefixed("[", afterOpen);
    Prefixed("]", tail);
    NumeralParsed(d, count, "]" + tail);
    ByFirst(s);
    InOrder(s, Parsed(ArrayT(None, inner, count), rest));
  }

  lemma MapParsed(afterOpen: string, afterKey: string, key: GoType, val: GoType, rest: string)
    requires ParseType(afterOpen) == Parsed(key, "]" + afterKey) && ParseType(afterKey) == Parsed(val, rest)
    ensures ParseType("map[" + afterOpen) == Parsed(MapT(None, key, val), rest)
  {
    hide ParseType;
    var s := "map[" + afterOpen;
    Prefixed("map[", afterOpen);
    Prefixed("]", afterKey);
    ByFirst(s);
    InOrder(s, Parsed(MapT(None, key, val), rest));
  }

  lemma StructParsed(d: string, size: nat, body: string, t: GoType, rest: string)
    requires Numeral(d, size) && StructFields(body, true, [], size) == Parsed(t, rest)
    ensures ParseType("struct(" + (d + ("){" + body))) == Parsed(t, rest)
  {
    hide ParseType;
    hide Numeral;
    hide ParsePosint;
    hide StructFields;
    var afterOpen := d + ("){" + body);
    var s := "struct(" + afterOpen;
    Prefixed("struct(", afterOpen);
    Prefixed("){", body);
    NumeralParsed(d, size, "){" + body);
    ByFirst(s);
    InOrder(s, Parsed(t, rest));
  }

  lemma RuntimeParsed(d: string, size: nat, e: string, addr: nat, rest: string)
    requires Numeral(d, size) && Numeral(e, addr) && Stops(rest)
    ensures ParseType("runtime(" + (d + (")" + (e + rest)))) == Parsed(RuntimeT(None, size, addr), rest)
  {
    hide ParseType;
    hide Numeral;
    hide ParsePosint;
    var afterOpen := d + (")" + (e + rest));
    var s := "runtime(" + afterOpen;
    Prefixed("runtime(", afterOpen);
    Prefixed(")", e + rest);
    NumeralParsed(d, size, ")" + (e + rest));
    NumeralParsed(e, addr, rest);
    InOrder(s, Parsed(RuntimeT(None, size, addr), rest));
  }

  lemma {:induction false} FieldsParsed(body: string, fields: seq<Field>, isFirst: bool, done: seq<Field>, size: nat, rest: string)
    requires DenoteFields(body, fields, isFirst)
    ensures StructFields(body + ("}" + rest), isFirst, done, size)
         == Parsed(StructT(None, done + fields, size, None, None), rest)
    decreases fields, 1
  {
    if fields == [] {
      assert body + ("}" + rest) == "}" + rest;
      Prefixed("}", rest);
      assert done + fields == done;
    } else {
      var semis, text, more := FieldsParts(body, fields, isFirst);
      var tail := more + ("}" + rest);
      FieldsStop(more, fields[1..], rest);
      FieldThenMeans(body, semis, text, more, isFirst);
      hide *;
      FieldParsed(semis, text, fields[0], tail);
      FieldsParsed(more, fields[1..], false, done + [fields[0]], size, rest);
      Shifted(done, fields);
      NextField(semis + (text + tail), isFirst, done, size, fields[0], tail);
      RegroupField(semis, text, more, "}" + rest);
    }
  }

  lemma RegroupField(a: string, b: string, c: string, rest: string)
    ensures a + (b + c) + rest == a + (b + (c + rest))
  {
  }

  lemma Shifted(done: seq<Field>, fields: seq<Field>)
    requires fields != []
    ensures done + [fields[0]] + fields[1..] == done + fields
  {
  }

  lemma FieldThenMeans(body: string, semis: string, text: string, more: string, isFirst: bool)
    requires FieldThen(body, semis, text, more, isFirst)
    ensures body == semis + (text + more) && Semicolons(semis) && (isFirst || semis != "")
  {
  }

  lemma NextField(cur: string, isFirst: bool, done: seq<Field>, size: nat, f: Field, tail: string)
    requires cur != "" && !StartsWith(cur, "}") && (isFirst || StartsWith(cur, ";")) && ParseField(cur) == Parsed(f, tail)
    ensures StructFields(cur, isFirst, done, size) == StructFields(tail, false, done + [f], size)
  {
    hide ParseField;
  }

  lemma FieldsStop(more: string, fields: seq<Field>, rest: string)
    requires DenoteFields(more, fields, false)
    ensures Stops(more + ("}" + rest))
  {
    if fields != [] {
      var semis, text, others := FieldsParts(more, fields, false);
      assert more[0] == semis[0];
    }
  }

  lemma {:induction false} SemicolonsSkipped(semis: string, s: string)
    requires Semicolons(semis) && s != "" && s[0] != ';'
    ensures SkipSemicolons(semis + s) == s
    decreases |semis|
  {
    if semis == "" {
      assert semis + s == s;
    } else {
      assert (semis + s)[1..] == semis[1..] + s;
      SemicolonsSkipped(semis[1..], s);
    }
  }

  /** One round of the loop reads one field. */
  lemma {:induction false} FieldParsed(semis: string, text: string, f: Field, tail: string)
    requires Semicolons(semis) && DenoteField(text, f) && Stops(tail)
    ensures var cur := semis + (text + tail);
            && cur != "" && !StartsWith(cur, "}") && (semis != "" ==> StartsWith(cur, ";"))
            && ParseField(cur) == Parsed(f, tail)
    decreases f
  {
    var d, u := FieldParts(text, f);
    IdentifierIs(f.name);
    hide *;
    DenotesParsed(u, f.ty.t, tail);
    FieldTextParsed(semis, d, f.off, f.name, u + tail, f.ty.t, tail);
    RegroupTwo(d, ":", f.name, ":" + u, tail);
    Regroup(":", u, tail);
  }

  lemma FieldTextParsed(semis: string, d: string, off: nat, name: string, afterName: string, t: GoType, tail: string)
    requires Semicolons(semis) && Numeral(d, off) && IsIdent(name) && ParseType(afterName) == Parsed(t, tail)
    ensures var cur := semis + (d + (":" + (name + (":" + afterName))));
            && cur != "" && !StartsWith(cur, "}") && (semis != "" ==> StartsWith(cur, ";"))
            && ParseField(cur) == Parsed(Field(name, Typed(t), off), tail)
  {
    hide ParseType;
    hide ParsePosint;
    hide ParseIdent;
    var afterOff := name + (":" + afterName);
    var body := d + (":" + afterOff);
    var cur := semis + body;
    NumeralRead(d, off);
    hide Numeral;
    assert IsHexDigit(d[0]) && body[0] == d[0];
    SemicolonsSkipped(semis, body);
    NumeralParsed(d, off, ":" + afterOff);
    Prefixed(":", afterOff);
    ReadIdent(name, ":" + afterName);
    Prefixed(":", afterName);
    hide SkipSemicolons;
    assert cur[0] == if semis == "" then d[0] else ';';
    Differs(cur, "}", 0);
    assert semis != "" ==> cur[..1] == ";";
  }

  // ----- Whatever is parsed denotes the type -----

  lemma {:induction false} ParsedDenotes(s: string) returns (u: string)
    requires ParseType(s).Parsed?
    ensures s == u + ParseType(s).rest && Denotes(u, ParseType(s).value)
    decreases |s|, 2
  {
    hide Numeral;
    hide ParsePosint;
    hide ParseIdent;
    hide IsKnown;
    hide BasicName;
    hide Identifier;
    if !ParseRuntime(s).NoMatch? {
      u := RuntimeDenotes(s);
    } else if !ParseStruct(s).NoMatch? {
      u := StructDenotes(s);
    } else if !ParseMap(s).NoMatch? {
      u := MapDenotes(s);
    } else if !ParseArray(s).NoMatch? {
      u := ArrayDenotes(s);
    } else if !ParsePointer(s).NoMatch? {
      var w := ParsedDenotes(s[1..]);
      var tail := Starts(s, "*");
      u := "*" + w;
    } else if !ParseSlice(s).NoMatch? {
      var w := ParsedDenotes(s[2..]);
      var tail := Starts(s, "[]");
      u := "[]" + w;
    } else {
      u := ParsedIdent(s);
      BasicNameIs(u);
    }
  }

  lemma RuntimeDenotes(s: string) returns (u: string)
    requires ParseRuntime(s).Parsed?
    ensures s == u + ParseRuntime(s).rest && Denotes(u, ParseRuntime(s).value)
  {
    hide Numeral;
    hide ParsePosint;
    var afterOpen := Starts(s, "runtime(");
    var d := ParsedNumeral(afterOpen);
    var e' := Starts(ParsePosint(afterOpen).rest, ")");
    var e := ParsedNumeral(e');
    u := "runtime(" + (d + (")" + e));
  }

  lemma {:induction false} ArrayDenotes(s: string) returns (u: string)
    requires ParseArray(s).Parsed?
    ensures s == u + ParseArray(s).rest && Denotes(u, ParseArray(s).value)
    decreases |s|, 1
  {
    hide Numeral;
    hide ParsePosint;
    hide ParseType;
    var afterOpen := Starts(s, "[");
    var d := ParsedNumeral(afterOpen);
    var tail := Starts(ParsePosint(afterOpen).rest, "]");
    var w := ParsedDenotes(tail);
    u := "[" + (d + ("]" + w));
  }

  lemma {:induction false} MapDenotes(s: string) returns (u: string)
    requires ParseMap(s).Parsed?
    ensures s == u + ParseMap(s).rest && Denotes(u, ParseMap(s).value)
    decreases |s|, 1
  {
    hide ParseType;
    var afterOpen := Starts(s, "map[");
    var k := ParsedDenotes(afterOpen);
    var tail := Starts(ParseType(afterOpen).rest, "]");
    var w := ParsedDenotes(tail);
    u := "map[" + (k + ("]" + w));
    var value, rest := ParseMap(s).value, ParseMap(s).rest;
    hide ParseMap;
    RegroupTwo("map[", k, "]", w, rest);
    hide Denotes;
    MapDenotation(k, value.key, w, value.val);
  }

  lemma MapDenotation(k: string, key: GoType, w: string, val: GoType)
    requires Denotes(k, key) && Denotes(w, val)
    ensures Denotes("map[" + (k + ("]" + w)), MapT(None, key, val))
  {
  }

  lemma {:induction false} StructDenotes(s: string) returns (u: string)
    requires ParseStruct(s).Parsed?
    ensures s == u + ParseStruct(s).rest && Denotes(u, ParseStruct(s).value)
    decreases |s|, 1
  {
    hide Numeral;
    hide ParsePosint;
    hide StructFields;
    hide DenoteFields;
    var afterOpen := Starts(s, "struct(");
    var d := ParsedNumeral(afterOpen);
    var size := ParsePosint(afterOpen).value;
    var cur := Starts(ParsePosint(afterOpen).rest, "){");
    var body, fields := FieldsDenote(cur, true, [], size);
    assert [] + fields == fields;
    u := "struct(" + (d + ("){" + (body + "}")));
  }

  lemma {:induction false} FieldsDenote(cur: string, isFirst: bool, done: seq<Field>, size: nat) returns (body: string, fields: seq<Field>)
    requires StructFields(cur, isFirst, done, size).Parsed?
    ensures cur == body + ("}" + StructFields(cur, isFirst, done, size).rest) && DenoteFields(body, fields, isFirst)
    ensures StructFields(cur, isFirst, done, size).value == StructT(None, done + fields, size, None, None)
    decreases |cur|, 4
  {
    hide ParseField;
    hide DenoteField;
    if StartsWith(cur, "}") {
      var tail := Starts(cur, "}");
      body, fields := "", [];
    } else {
      var semis, text := FieldDenotes(cur);
      var p := ParseField(cur);
      var more, others := FieldsDenote(p.rest, false, done + [p.value], size);
      body, fields := semis + (text + more), [p.value] + others;
      assert !isFirst ==> semis != "";
      assert FieldThen(body, semis, text, more, isFirst) && fields[1..] == others;
      assert done + [p.value] + others == done + fields;
    }
  }

  lemma {:induction false} FieldDenotes(cur: string) returns (semis: string, text: string)
    requires ParseField(cur).Parsed?
    ensures cur == semis + (text + ParseField(cur).rest) && Semicolons(semis) && DenoteField(text, ParseField(cur).value)
    ensures StartsWith(cur, ";") ==> semis != ""
    decreases |cur|, 3
  {
    hide Numeral;
    hide ParsePosint;
    hide ParseIdent;
    hide ParseType;
    hide Denotes;
    var s;
    semis, s := Skipping(cur);
    var d := ParsedNumeral(s);
    var afterOff := Starts(ParsePosint(s).rest, ":");
    var name := ParsedIdent(afterOff);
    var afterName := Starts(ParseIdent(afterOff).rest, ":");
    var u := ParsedDenotes(afterName);
    IdentifierIs(name);
    hide Identifier;
    text := d + (":" + (name + (":" + u)));
  }

  lemma {:induction false} Skipping(cur: string) returns (semis: string, s: string)
    ensures cur == semis + s && s == SkipSemicolons(cur) && Semicolons(semis) && (StartsWith(cur, ";") ==> semis != "")
    decreases |cur|
  {
    if StartsWith(cur, ";") {
      semis, s := Skipping(cur[1..]);
      semis := ";" + semis;
      assert cur == ";" + cur[1..];
    } else {
      semis, s := "", cur;
    }
  }

  // ----- Which texts are accepted -----

  /** parse_type accepts a text, as a given type, if and only if the whole of it denotes that type. */
  lemma ParsesExactly(s: string, t: GoType)
    ensures ParseWhole(s) == Some(t) <==> Denotes(s, t)
  {
    hide Denotes;
    hide ParseType;
    assert s + "" == s;
    if Denotes(s, t) {
      DenotesParsed(s, t, "");
    }
    if ParseWhole(s) == Some(t) {
      var u := ParsedDenotes(s);
      assert u + "" == u;
    }
  }
}
