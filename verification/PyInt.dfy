/**
  Python's integer literals: `int(text, base)` for bases 0, 10 and 16 over ASCII
  text, and the decimal and hexadecimal formats that are read back by it.
 */
module PyInt {
  import opened Options

  predicate IsSpace(c: char) {
    '\t' <= c <= '\r' || (28 as char) <= c <= ' '
  }

  function DigitValue(c: char): nat {
    if '0' <= c <= '9' then (c - '0') as nat
    else if 'a' <= c <= 'z' then (c - 'a') as nat + 10
    else if 'A' <= c <= 'Z' then (c - 'A') as nat + 10
    else 99
  }

  /** Digits with single underscores between them. */
  function Number(s: string, base: nat): Option<nat>
    requires 2 <= base <= 36
  {
    if s == [] then None
    else
      var d := DigitValue(s[|s| - 1]);
      if d >= base then None
      else if |s| == 1 then Some(d)
      else
        var front := Number(if s[|s| - 2] == '_' then s[..|s| - 2] else s[..|s| - 1], base);
        if front.None? then None else Some(Shifted(front.value, base, d))
  }

  function Shifted(front: nat, base: nat, d: nat): nat {
    front * base + d
  }

  function StripLeft(s: string): string {
    if s != [] && IsSpace(s[0]) then StripLeft(s[1..]) else s
  }

  function StripRight(s: string): string {
    if s != [] && IsSpace(s[|s| - 1]) then StripRight(s[..|s| - 1]) else s
  }

  predicate HasPrefix(s: string, letter: char)
    requires 'a' <= letter <= 'z'
  {
    |s| >= 2 && s[0] == '0' && (s[1] == letter || s[1] == letter - ' ')
  }

  /** The digits after a base prefix, which one underscore may precede. */
  function AfterPrefix(s: string, base: nat): Option<nat>
    requires 2 <= base <= 36
  {
    Number(if s != [] && s[0] == '_' then s[1..] else s, base)
  }

  /** A literal without sign. */
  function Magnitude(s: string, base: nat): Option<nat>
    requires base in {0, 10, 16}
  {
    if base != 10 && HasPrefix(s, 'x') then AfterPrefix(s[2..], 16)
    else if base == 0 && HasPrefix(s, 'o') then AfterPrefix(s[2..], 8)
    else if base == 0 && HasPrefix(s, 'b') then AfterPrefix(s[2..], 2)
    else if base == 16 then Number(s, 16)
    else
      var n := Number(s, 10);
      // in base 0 a number with a leading zero must be zero
      if base == 0 && n.Some? && s[0] == '0' && n.value != 0 then None else n
  }

  /** int(text, base); None is ValueError. */
  function Int(text: string, base: nat): Option<int>
    requires base in {0, 10, 16}
  {
    var s := StripRight(StripLeft(text));
    var signed := s != [] && (s[0] == '+' || s[0] == '-');
    var m := Magnitude(if signed then s[1..] else s, base);
    if m.None? then None else Some(if signed && s[0] == '-' then -(m.value as int) else m.value)
  }

  // ----- Formatting -----

  function DigitChar(d: nat): char
    requires d < 16
  {
    if d < 10 then '0' + d as char else 'a' + (d - 10) as char
  }

  function Digits(n: nat, base: nat): (s: string)
    requires 2 <= base <= 16
    ensures s != []
    decreases n
  {
    if n < base then [DigitChar(n)] else Digits(n / base, base) + [DigitChar(n % base)]
  }

  /** str(n) and hex(n) without its prefix. */
  function Dec(n: nat): string { Digits(n, 10) }

  function Hex(n: nat): string { Digits(n, 16) }

  /** f"{i:+#x}" */
  function SignedHex(i: int): string {
    if i < 0 then "-0x" + Hex(-i) else "+0x" + Hex(i)
  }

  // ----- Round trips -----

  predicate AllDigits(s: string, base: nat) {
    forall i | 0 <= i < |s| :: IsDigit(s[i], base)
  }

  /** A character the formatter may produce. */
  predicate IsDigit(c: char, base: nat) {
    ('0' <= c <= '9' || (base == 16 && 'a' <= c <= 'f')) && DigitValue(c) < base
  }

  lemma NumberAppend(front: string, c: char, base: nat)
    requires 2 <= base <= 36 && Number(front, base).Some? && DigitValue(c) < base
    ensures Number(front + [c], base) == Some(Number(front, base).value * base + DigitValue(c))
  {
    EndsInDigit(front, base);
    hide DigitValue;
    hide Shifted;
    var s := front + [c];
    assert s[..|s| - 1] == front && s[|s| - 2] == front[|front| - 1];
    NumberUnrolled(s, base);
    ShiftedIs(Number(front, base).value, base, DigitValue(c));
  }

  lemma ShiftedIs(front: nat, base: nat, d: nat)
    ensures Shifted(front, base, d) == front * base + d
  {
  }

  lemma EndsInDigit(s: string, base: nat)
    requires 2 <= base <= 36 && Number(s, base).Some?
    ensures s != [] && s[|s| - 1] != '_'
  {
    hide Shifted;
  }

  lemma NumberUnrolled(s: string, base: nat)
    requires 2 <= base <= 36 && |s| > 1 && s[|s| - 2] != '_'
    requires DigitValue(s[|s| - 1]) < base && Number(s[..|s| - 1], base).Some?
    ensures Number(s, base) == Some(Shifted(Number(s[..|s| - 1], base).value, base, DigitValue(s[|s| - 1])))
  {
    hide DigitValue;
    hide Shifted;
  }

  lemma DivMod(n: nat, base: nat)
    requires base == 10 || base == 16
    ensures n / base * base + n % base == n
    ensures n >= base ==> n / base > 0
  {
  }

  lemma {:induction false} DigitsRead(n: nat, base: nat)
    requires base == 10 || base == 16
    ensures AllDigits(Digits(n, base), base)
    ensures Number(Digits(n, base), base) == Some(n)
    ensures Digits(n, base)[0] == '0' ==> n == 0
    decreases n
  {
    hide Number;
    hide DigitChar;
    hide IsDigit;
    hide DigitValue;
    DivMod(n, base);
    if n < base {
      IsDigitChar(n, base);
      NumberOne(DigitChar(n), base);
    } else {
      DigitsRead(n / base, base);
      IsDigitChar(n % base, base);
      NumberAppend(Digits(n / base, base), DigitChar(n % base), base);
      AllDigitsAppend(Digits(n / base, base), DigitChar(n % base), base);
    }
  }

  lemma IsDigitChar(d: nat, base: nat)
    requires (base == 10 || base == 16) && d < base
    ensures IsDigit(DigitChar(d), base) && DigitValue(DigitChar(d)) == d && (DigitChar(d) == '0' ==> d == 0)
  {
  }

  lemma AllDigitsAppend(s: string, c: char, base: nat)
    requires AllDigits(s, base) && IsDigit(c, base)
    ensures AllDigits(s + [c], base)
  {
  }

  lemma NumberOne(c: char, base: nat)
    requires 2 <= base <= 36 && DigitValue(c) < base
    ensures Number([c], base) == Some(DigitValue(c))
  {
  }

  /** Text that starts and ends with a visible character is not stripped. */
  lemma NotStripped(s: string)
    requires s == [] || (!IsSpace(s[0]) && !IsSpace(s[|s| - 1]))
    ensures StripRight(StripLeft(s)) == s
  {
  }

  /** int(str(n), 0) == n. */
  lemma DecRead(n: nat)
    ensures Int(Dec(n), 0) == Some(n)
    ensures AllDigits(Dec(n), 10)
  {
    DigitsRead(n, 10);
    NotStripped(Dec(n));
  }

  lemma PrefixedHex(n: nat)
    ensures Magnitude("0x" + Hex(n), 0) == Some(n)
  {
    DigitsRead(n, 16);
    hide Digits;
    hide Number;
    assert ("0x" + Hex(n))[2..] == Hex(n);
  }

  /** int(hex(n), 0) == n, and the hexadecimal digits alone are read in base 16. */
  lemma HexRead(n: nat)
    ensures Int("0x" + Hex(n), 0) == Some(n)
    ensures Int(Hex(n), 16) == Some(n)
    ensures AllDigits(Hex(n), 16)
  {
    DigitsRead(n, 16);
    PrefixedHex(n);
    NotStripped("0x" + Hex(n));
    NotStripped(Hex(n));
    hide Digits;
    hide Number;
  }

  lemma SignedInt(negative: bool, text: string, n: nat)
    requires Magnitude(text, 0) == Some(n)
    requires var s := [if negative then '-' else '+'] + text; StripRight(StripLeft(s)) == s
    ensures Int([if negative then '-' else '+'] + text, 0) == Some(if negative then -(n as int) else n as int)
  {
    hide Magnitude;
    hide StripLeft;
    hide StripRight;
    assert ([if negative then '-' else '+'] + text)[1..] == text;
  }

  lemma SignedNotStripped(negative: bool, hex: string)
    requires hex != [] && !IsSpace(hex[|hex| - 1])
    ensures var s := [if negative then '-' else '+'] + ("0x" + hex); StripRight(StripLeft(s)) == s
  {
    hide StripLeft;
    hide StripRight;
    var s := [if negative then '-' else '+'] + ("0x" + hex);
    assert s[|s| - 1] == hex[|hex| - 1];
    NotStripped(s);
  }

  lemma LastDigitVisible(s: string)
    requires s != [] && AllDigits(s, 16)
    ensures !IsSpace(s[|s| - 1])
  {
    assert IsDigit(s[|s| - 1], 16);
  }

  /** int(f"{i:+#x}", 0) == i. */
  lemma SignedHexRead(i: int)
    ensures Int(SignedHex(i), 0) == Some(i)
  {
    var n := if i < 0 then -i else i;
    PrefixedHex(n);
    HexRead(n);
    hide *;
    HexNotEmpty(n);
    LastDigitVisible(Hex(n));
    SignedNotStripped(i < 0, Hex(n));
    SignedInt(i < 0, "0x" + Hex(n), n);
    SignedHexText(i);
  }

  lemma HexNotEmpty(n: nat)
    ensures Hex(n) != []
  {
  }

  lemma SignedHexText(i: int)
    ensures SignedHex(i) == [if i < 0 then '-' else '+'] + ("0x" + Hex(if i < 0 then -i else i))
  {
    hide Hex;
  }
}
