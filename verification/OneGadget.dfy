/**
  Dereference expressions of one_gadget constraints: the printer and the parser
  (pwndbg/aglib/onegadget.py:87-229).
 */
module OneGadget {
  import opened Options
  import opened PyInt

  /** `derefs` pairs of brackets around `obj` plus a displacement. */
  datatype Lambda = Lambda(obj: Obj, immi: int, derefs: nat)

  datatype Obj = Name(text: string) | Nested(inner: Lambda)

  /** What parsing gives: a number or an expression. */
  datatype Value = Num(n: int) | Expr(l: Lambda)

  type Predefined = map<string, Value>

  // ----- Operations -----

  function Add(l: Lambda, other: int): Lambda {
    if l.derefs > 0 then Lambda(Nested(l), other, 0) else Lambda(l.obj, l.immi + other, 0)
  }

  function Deref(l: Lambda): Lambda { Lambda(l.obj, l.immi, l.derefs + 1) }

  function Bracket(text: string, n: nat): string {
    if n == 0 then text else "[" + Bracket(text, n - 1) + "]"
  }

  function Disp(immi: int): string { if immi != 0 then SignedHex(immi) else "" }

  function StrObj(obj: Obj): string
    decreases obj
  {
    match obj
    case Name(text) => text
    case Nested(inner) => Str(inner)
  }

  /** str(l) */
  function Str(l: Lambda): string
    decreases l
  {
    Bracket(StrObj(l.obj) + Disp(l.immi), l.derefs)
  }

  // ----- The parser -----

  predicate IsSign(c: char) { c == '+' || c == '-' }

  /** re.split(r"[+\-]", s) */
  function Split(s: string): (tokens: seq<string>)
    ensures tokens != []
  {
    if s == [] then [""]
    else
      var rest := Split(s[1..]);
      if IsSign(s[0]) then [""] + rest else [[s[0]] + rest[0]] + rest[1..]
  }

  /** str.rindex of one character; None is ValueError. */
  function RIndex(s: string, c: char): (r: Option<nat>)
    ensures r.Some? ==> r.value < |s| && s[r.value] == c
  {
    if s == [] then None
    else if s[|s| - 1] == c then Some(|s| - 1)
    else RIndex(s[..|s| - 1], c)
  }

  function MemObj(arg: string): Option<(string, int)> {
    var tokens := Split(arg);
    if |tokens| == 1 then Some((tokens[0], 0))
    else if |tokens| == 2 then
      var n := Int(tokens[1], 0);
      if n.None? then None else Some((tokens[0], n.value * (if '-' in arg then -1 else 1)))
    else None
  }

  function Plus(v: Value, disp: int): Value {
    match v
    case Num(n) => Num(n + disp)
    case Expr(l) => Expr(Add(l, disp))
  }

  /** Lambda.parse; None is ValueError. */
  function Parse(argument: string, predefined: Predefined): Option<Value>
    decreases |argument|
  {
    if argument == "" || argument == "!" then Some(Num(0))
    else if Int(argument, 0).Some? then Some(Num(Int(argument, 0).value))
    else if argument[0] == '[' then
      var ridx := RIndex(argument, ']');
      if ridx.None? then None
      else
        var immi := Parse(argument[ridx.value + 1..], map[]);
        var lm := Parse(argument[1..ridx.value], predefined);
        if immi.None? || lm.None? || !lm.value.Expr? || !immi.value.Num? then None
        else
          var d := Deref(lm.value.l);
          Some(Expr(if immi.value.n != 0 then Add(d, immi.value.n) else d))
    else
      var m := MemObj(argument);
      if m.None? then None
      else
        var (base, disp) := m.value;
        var obj := if base in predefined then predefined[base] else Expr(Lambda(Name(base), 0, 0));
        Some(if disp != 0 then Plus(obj, disp) else obj)
  }

  // ----- What an expression denotes -----

  /** The values of the registers and the words of memory. */
  datatype State = State(regs: string -> int, mem: int -> int)

  function Load(v: int, n: nat, st: State): int {
    if n == 0 then v else st.mem(Load(v, n - 1, st))
  }

  function EvalObj(obj: Obj, st: State): int
    decreases obj
  {
    match obj
    case Name(text) => st.regs(text)
    case Nested(inner) => Eval(inner, st)
  }

  function Eval(l: Lambda, st: State): int
    decreases l
  {
    Load(EvalObj(l.obj, st) + l.immi, l.derefs, st)
  }

  /** `+` adds and `deref` reads memory, whatever the expression. */
  lemma OperationsMean(l: Lambda, other: int, st: State)
    ensures Eval(Add(l, other), st) == Eval(l, st) + other
    ensures Eval(Deref(l), st) == st.mem(Eval(l, st))
  {
    if l.derefs > 0 {
      assert EvalObj(Nested(l), st) == Eval(l, st);
    }
  }

  // ----- Expressions that print readable text -----

  /** A register name: not a number, and without the characters of the syntax. */
  predicate BaseName(s: string) {
    && s != "" && s != "!" && !('0' <= s[0] <= '9') && !IsSpace(s[0])
    && '+' !in s && '-' !in s && '[' !in s && ']' !in s
  }

  predicate BasesNamed(l: Lambda) {
    match l.obj
    case Name(text) => BaseName(text)
    case Nested(inner) => BasesNamed(inner)
  }

  /** Objects nested in `l` that are not dereferenced print as part of one sum; its non-zero displacements, innermost first. */
  function Disps(l: Lambda): seq<int> {
    (if l.obj.Nested? && l.obj.inner.derefs == 0 then Disps(l.obj.inner) else [])
    + (if l.immi != 0 then [l.immi] else [])
  }

  /** What that sum starts with: a name or a dereferenced expression. */
  function Bottom(l: Lambda): (obj: Obj)
    ensures obj.Nested? ==> obj.inner < l && obj.inner.derefs > 0
  {
    if l.obj.Nested? && l.obj.inner.derefs == 0 then Bottom(l.obj.inner) else l.obj
  }

  /** Every sum has at most one displacement. */
  predicate OneDisplacement(l: Lambda)
    decreases l
  {
    |Disps(l)| <= 1 && (Bottom(l).Nested? ==> OneDisplacement(Bottom(l).inner))
  }

  function DispText(disps: seq<int>): string {
    if disps == [] then "" else DispText(disps[..|disps| - 1]) + SignedHex(disps[|disps| - 1])
  }

  function Sum(disps: seq<int>): int {
    if disps == [] then 0 else Sum(disps[..|disps| - 1]) + disps[|disps| - 1]
  }

  function Below(l: Lambda): seq<int> {
    if l.obj.Nested? && l.obj.inner.derefs == 0 then Disps(l.obj.inner) else []
  }

  lemma DispsStep(l: Lambda)
    ensures Disps(l) == if l.immi != 0 then Below(l) + [l.immi] else Below(l)
  {
    assert Below(l) + [] == Below(l);
  }

  lemma AppendDisp(disps: seq<int>, x: int)
    ensures DispText(disps + [x]) == DispText(disps) + SignedHex(x)
    ensures Sum(disps + [x]) == Sum(disps) + x
  {
    assert (disps + [x])[..|disps|] == disps;
  }

  lemma {:induction false} ChainText(l: Lambda)
    ensures StrObj(l.obj) + Disp(l.immi) == StrObj(Bottom(l)) + DispText(Disps(l))
    decreases l
  {
    var base, below := StrObj(Bottom(l)), Below(l);
    if l.obj.Nested? && l.obj.inner.derefs == 0 {
      ChainText(l.obj.inner);
    } else {
      assert base + DispText([]) == base;
    }
    assert StrObj(l.obj) == base + DispText(below);
    DispsStep(l);
    AppendDisp(below, l.immi);
    hide *;
    Associative(base, DispText(below), Disp(l.immi));
    DispParts(l.immi);
    assert DispText(below) + "" == DispText(below);
  }

  lemma DispParts(x: int)
    ensures Disp(x) == if x != 0 then SignedHex(x) else ""
  {
  }

  lemma Associative(a: string, b: string, c: string)
    ensures a + (b + c) == (a + b) + c
  {
  }

  lemma {:induction false} ChainMeans(l: Lambda, st: State)
    ensures EvalObj(l.obj, st) + l.immi == EvalObj(Bottom(l), st) + Sum(Disps(l))
    decreases l
  {
    if l.obj.Nested? && l.obj.inner.derefs == 0 {
      ChainMeans(l.obj.inner, st);
    }
    DispsStep(l);
    AppendDisp(Below(l), l.immi);
  }

  predicate Named(obj: Obj) {
    match obj
    case Name(t) => BaseName(t)
    case Nested(k) => BasesNamed(k)
  }

  lemma {:induction false} ChainParts(l: Lambda)
    ensures forall i | 0 <= i < |Disps(l)| :: Disps(l)[i] != 0
    ensures BasesNamed(l) ==> Named(Bottom(l))
    decreases l
  {
    if l.obj.Nested? && l.obj.inner.derefs == 0 {
      ChainParts(l.obj.inner);
    }
    DispsStep(l);
  }

  // ----- Numbers and signs -----

  lemma {:induction false} NotANumber(s: string, base: nat, i: nat)
    requires 2 <= base <= 36 && i < |s| && DigitValue(s[i]) >= base && s[i] != '_'
    ensures Number(s, base).None?
    decreases |s|
  {
    if i < |s| - 1 && DigitValue(s[|s| - 1]) < base {
      var front := if s[|s| - 2] == '_' then s[..|s| - 2] else s[..|s| - 1];
      assert front[i] == s[i];
      NotANumber(front, base, i);
    }
  }

  lemma {:induction false} StripRightPrefix(s: string)
    requires s != [] && !IsSpace(s[0])
    ensures StripRight(s) != [] && StripRight(s) <= s
    decreases |s|
  {
    if |s| > 1 && IsSpace(s[|s| - 1]) {
      StripRightPrefix(s[..|s| - 1]);
    }
  }

  /** Text that starts neither as a number nor with a space or sign. */
  lemma {:induction false} NoLiteral(s: string)
    requires s != [] && !('0' <= s[0] <= '9') && !IsSpace(s[0]) && !IsSign(s[0])
    ensures Int(s, 0).None?
  {
    assert StripLeft(s) == s;
    StripRightPrefix(s);
    var t := StripRight(s);
    assert t[0] == s[0];
    hide StripRight;
    if t[0] == '_' {
      UnderscoreFirst(t);
    } else {
      NotANumber(t, 10, 0);
    }
  }

  lemma {:induction false} UnderscoreFirst(t: string)
    requires t != [] && t[0] == '_'
    ensures Number(t, 10).None?
    decreases |t|
  {
    if |t| > 1 && DigitValue(t[|t| - 1]) < 10 {
      var front := if t[|t| - 2] == '_' then t[..|t| - 2] else t[..|t| - 1];
      if front != [] {
        assert front[0] == '_';
        UnderscoreFirst(front);
      }
    }
  }

  /** Text without signs and brackets that ends visibly. */
  predicate Plain(s: string) {
    && |s| >= 3 && s[0] == '0' && s[1] == 'x' && !IsSpace(s[|s| - 1])
    && '+' !in s && '-' !in s && '[' !in s && ']' !in s
  }

  lemma HexPlain(n: nat)
    ensures Plain("0x" + Hex(n)) && Int("0x" + Hex(n), 0) == Some(n)
  {
    HexRead(n);
    hide Digits;
    hide Int;
    var h := Hex(n);
    forall k | 0 <= k < |h| ensures h[k] !in {'+', '-', '[', ']'} && !IsSpace(h[k]) {
      assert IsDigit(h[k], 16);
    }
  }

  /** What a printed displacement consists of. */
  lemma SignedParts(i: int) returns (sign: char, digits: string)
    ensures SignedHex(i) == [sign] + digits && sign == (if i < 0 then '-' else '+')
    ensures Plain(digits) && Int(digits, 0) == Some(if i < 0 then -i else i)
  {
    var n := if i < 0 then -i else i;
    HexPlain(n);
    sign, digits := if i < 0 then '-' else '+', "0x" + Hex(n);
  }

  // ----- Splitting -----

  predicate NoSign(s: string) { '+' !in s && '-' !in s }

  lemma {:induction false} SplitNone(s: string)
    requires NoSign(s)
    ensures Split(s) == [s]
    decreases |s|
  {
    if s != [] {
      SplitNone(s[1..]);
      assert [s[0]] + s[1..] == s && [s[1..]][1..] == [];
    }
  }

  lemma {:induction false} SplitAt(a: string, sign: char, b: string)
    requires NoSign(a) && IsSign(sign)
    ensures Split(a + [sign] + b) == [a] + Split(b)
    decreases |a|
  {
    var s := a + [sign] + b;
    if a == [] {
      assert s[1..] == b;
    } else {
      assert s[0] == a[0] && s[1..] == a[1..] + [sign] + b;
      SplitAt(a[1..], sign, b);
      var rest := [a[1..]] + Split(b);
      assert rest[1..] == Split(b) && [a[0]] + a[1..] == a;
    }
  }

  lemma {:induction false} RIndexAt(a: string, c: char, b: string)
    requires c !in b
    ensures RIndex(a + [c] + b, c) == Some(|a|)
    decreases |b|
  {
    var s := a + [c] + b;
    if b == [] {
      assert s == a + [c];
    } else {
      assert s[|s| - 1] == b[|b| - 1];
      assert s[..|s| - 1] == a + [c] + b[..|b| - 1];
      RIndexAt(a, c, b[..|b| - 1]);
    }
  }

  // ----- A sum is read back -----

  lemma OneDisp(x: int)
    ensures DispText([x]) == SignedHex(x) && Sum([x]) == x
  {
    assert [x][..0] == [];
    assert DispText([]) + SignedHex(x) == SignedHex(x);
  }

  /** One token more than there are displacements. */
  lemma {:induction false} SplitDisps(a: string, disps: seq<int>)
    requires NoSign(a)
    ensures |Split(a + DispText(disps))| == |disps| + 1
    decreases |disps|
  {
    if disps == [] {
      assert a + DispText(disps) == a;
      SplitNone(a);
    } else {
      var front, last := disps[..|disps| - 1], disps[|disps| - 1];
      DispTextStep(disps);
      hide *;
      SplitDisps(a, front);
      var sign, digits := SignedParts(last);
      PlainNoSign(digits);
      SplitLast(a + DispText(front), sign, digits);
      Associative(a, DispText(front), [sign] + digits);
      Joined(a + DispText(front), sign, digits);
    }
  }

  lemma {:induction false} SplitLast(a: string, sign: char, b: string)
    requires IsSign(sign) && NoSign(b)
    ensures |Split(a + [sign] + b)| == |Split(a)| + 1
    decreases |a|
  {
    var s := a + [sign] + b;
    if a == [] {
      assert s[1..] == b;
      SplitNone(b);
    } else {
      assert s[0] == a[0] && s[1..] == a[1..] + [sign] + b;
      SplitLast(a[1..], sign, b);
    }
  }

  /** The displacements' text has no brackets, is visible, and starts with a sign and "0x". */
  predicate DispLike(s: string) {
    && '[' !in s && ']' !in s
    && (s != "" ==> |s| >= 4 && IsSign(s[0]) && s[1] == '0' && s[2] == 'x' && !IsSpace(s[|s| - 1]))
  }

  lemma {:induction false} DispShape(disps: seq<int>)
    ensures DispLike(DispText(disps)) && (disps == [] <==> DispText(disps) == "")
    decreases |disps|
  {
    if disps != [] {
      var front, last := disps[..|disps| - 1], disps[|disps| - 1];
      DispShape(front);
      var sign, digits := SignedParts(last);
      hide *;
      DispLikeAppend(DispText(front), sign, digits);
      assert DispText(disps) == DispText(front) + ([sign] + digits) by {
        DispTextStep(disps);
      }
    }
  }

  lemma DispTextStep(disps: seq<int>)
    requires disps != []
    ensures DispText(disps) == DispText(disps[..|disps| - 1]) + SignedHex(disps[|disps| - 1])
  {
  }

  lemma DispLikeAppend(front: string, sign: char, digits: string)
    requires DispLike(front) && IsSign(sign) && Plain(digits)
    ensures DispLike(front + ([sign] + digits)) && front + ([sign] + digits) != ""
  {
    hide IsSpace;
    var s := front + ([sign] + digits);
    assert s[|s| - 1] == digits[|digits| - 1];
    if front == "" {
      assert s == [sign] + digits;
    }
  }

  lemma NumberParses(s: string)
    requires s != "" && s != "!" && Int(s, 0).Some?
    ensures Parse(s, map[]) == Some(Num(Int(s, 0).value))
  {
  }

  lemma SumFails(s: string, predefined: Predefined)
    requires s != "" && s != "!" && s[0] != '[' && Int(s, 0).None? && |Split(s)| >= 3
    ensures Parse(s, predefined).None?
  {
  }

  /** A displacement by itself is the number; several together are an error. */
  lemma ParseDisps(disps: seq<int>)
    ensures |disps| <= 1 ==> Parse(DispText(disps), map[]) == Some(Num(Sum(disps)))
    ensures |disps| >= 2 ==> Parse(DispText(disps), map[]).None?
  {
    if |disps| == 1 {
      assert disps == [disps[0]];
      OneDisp(disps[0]);
      SignedHexRead(disps[0]);
      DispShape(disps);
      hide Int;
      NumberParses(DispText(disps));
    } else if |disps| >= 2 {
      DispsNoLiteral(disps);
      DispShape(disps);
      SplitDisps("", disps);
      assert "" + DispText(disps) == DispText(disps);
      hide Int;
      hide Split;
      hide DispText;
      SumFails(DispText(disps), map[]);
    }
  }

  lemma {:induction false} DispsNoLiteral(disps: seq<int>)
    requires |disps| >= 2
    ensures Int(DispText(disps), 0).None?
  {
    var front, last := disps[..|disps| - 1], disps[|disps| - 1];
    DispShape(disps);
    DispShape(front);
    var sign, digits := SignedParts(last);
    var s := DispText(disps);
    var i := |DispText(front)|;
    assert s == DispText(front) + ([sign] + digits);
    hide SignedHex;
    hide DispText;
    hide Int;
    assert s[i] == sign;
    NotStripped(s);
    SignInside(s, i);
  }

  lemma SignInside(s: string, i: nat)
    requires 3 <= i < |s| && IsSign(s[i]) && IsSign(s[0]) && s[1] == '0' && s[2] == 'x'
    requires StripRight(StripLeft(s)) == s
    ensures Int(s, 0).None?
  {
    var t := s[1..][2..];
    assert t[i - 3] == s[i];
    NotANumber(t, 16, i - 3);
    if t[0] == '_' {
      NotANumber(t[1..], 16, i - 4);
    }
    hide Number;
    hide StripRight;
    hide StripLeft;
  }

  // ----- Printing and parsing -----

  function Size(l: Lambda): nat {
    1 + l.derefs + if l.obj.Nested? then Size(l.obj.inner) else 0
  }

  lemma {:induction false} BottomSmaller(l: Lambda)
    ensures Bottom(l).Nested? ==> Size(Bottom(l).inner) < Size(l)
    decreases l
  {
    if l.obj.Nested? && l.obj.inner.derefs == 0 {
      BottomSmaller(l.obj.inner);
    }
  }

  /** The bracket branch, on bracketed text followed by text without brackets. */
  function Bracketed(immi: Option<Value>, lm: Option<Value>): Option<Value> {
    if immi.None? || lm.None? || !lm.value.Expr? || !immi.value.Num? then None
    else Some(Expr(if immi.value.n != 0 then Add(Deref(lm.value.l), immi.value.n) else Deref(lm.value.l)))
  }

  lemma ParseBracketed(x: string, d: string, predefined: Predefined)
    requires ']' !in d
    ensures Parse("[" + x + "]" + d, predefined) == Bracketed(Parse(d, map[]), Parse(x, predefined))
  {
    var s := "[" + x + "]" + d;
    NoLiteral(s);
    RIndexAt("[" + x, ']', d);
    assert s == ("[" + x) + "]" + d;
    hide Int;
    hide RIndex;
    assert s[|x| + 2..] == d && s[1..|x| + 1] == x;
  }

  lemma BracketedMeans(n: int, l: Lambda, st: State)
    ensures var v := Bracketed(Some(Num(n)), Some(Expr(l)));
            v.Some? && v.value.Expr? && Eval(v.value.l, st) == st.mem(Eval(l, st)) + n
  {
    OperationsMean(l, 0, st);
    OperationsMean(Deref(l), n, st);
  }

  function OfMem(m: Option<(string, int)>, predefined: Predefined): Option<Value> {
    if m.None? then None
    else
      var obj := if m.value.0 in predefined then predefined[m.value.0] else Expr(Lambda(Name(m.value.0), 0, 0));
      Some(if m.value.1 != 0 then Plus(obj, m.value.1) else obj)
  }

  lemma ParseMem(s: string, predefined: Predefined)
    requires s != "" && s != "!" && s[0] != '[' && Int(s, 0).None?
    ensures Parse(s, predefined) == OfMem(MemObj(s), predefined)
  {
    hide MemObj;
    hide Int;
  }

  lemma MemObjNone(t: string)
    requires NoSign(t)
    ensures MemObj(t) == Some((t, 0))
  {
    SplitNone(t);
  }

  lemma MemObjOne(t: string, sign: char, digits: string, x: int)
    requires NoSign(t) && NoSign(digits) && sign == (if x < 0 then '-' else '+')
    requires Int(digits, 0) == Some(if x < 0 then -x else x)
    ensures MemObj(t + [sign] + digits) == Some((t, x))
  {
    SplitAt(t, sign, digits);
    SplitNone(digits);
    MinusIn(t, sign, digits);
    hide Int;
    hide Split;
  }

  lemma MinusIn(t: string, sign: char, digits: string)
    requires NoSign(t) && NoSign(digits)
    ensures '-' in t + [sign] + digits <==> sign == '-'
  {
    assert (t + [sign] + digits)[|t|] == sign;
  }

  lemma MemObjMany(s: string)
    requires |Split(s)| >= 3
    ensures MemObj(s).None?
  {
  }

  lemma MemObjDisp(t: string, disps: seq<int>)
    requires NoSign(t) && |disps| == 1
    ensures MemObj(t + DispText(disps)) == Some((t, disps[0]))
  {
    hide *;
    var sign, digits := SignedParts(disps[0]);
    assert disps == [disps[0]];
    OneDisp(disps[0]);
    Joined(t, sign, digits);
    PlainNoSign(digits);
    MemObjOne(t, sign, digits, disps[0]);
  }

  lemma Joined(a: string, sign: char, b: string)
    ensures a + ([sign] + b) == a + [sign] + b
  {
  }

  lemma PlainNoSign(s: string)
    requires Plain(s)
    ensures NoSign(s)
  {
  }

  lemma MemObjName(t: string, disps: seq<int>)
    requires NoSign(t)
    ensures MemObj(t + DispText(disps)) ==
            if |disps| >= 2 then None else Some((t, if |disps| == 1 then disps[0] else 0))
  {
    if |disps| == 0 {
      assert t + DispText(disps) == t;
      MemObjNone(t);
    } else if |disps| == 1 {
      MemObjDisp(t, disps);
    } else {
      SplitDisps(t, disps);
      hide DispText;
      MemObjMany(t + DispText(disps));
    }
  }

  /** A name followed by displacements. */
  lemma ParseName(t: string, disps: seq<int>, predefined: Predefined)
    requires BaseName(t)
    ensures Parse(t + DispText(disps), predefined) ==
            OfMem(if |disps| >= 2 then None else Some((t, if |disps| == 1 then disps[0] else 0)), predefined)
  {
    var s := t + DispText(disps);
    DispShape(disps);
    MemObjName(t, disps);
    assert s[0] == t[0];
    hide DispText;
    assert s != "!" by {
      assert |s| == |t| + |DispText(disps)|;
      assert DispText(disps) == "" ==> s == t;
    }
    NoLiteral(s);
    hide *;
    ParseMem(s, predefined);
  }

  /** What the parser is told about names agrees with the registers. */
  ghost predicate Agrees(predefined: Predefined, st: State) {
    forall b | b in predefined :: predefined[b].Expr? && Eval(predefined[b].l, st) == st.regs(b)
  }

  /** `v` is an expression with the value of `l`. */
  ghost predicate Denotes(v: Option<Value>, l: Lambda, st: State) {
    v.Some? && v.value.Expr? && Eval(v.value.l, st) == Eval(l, st)
  }

  lemma StrBracket(l: Lambda)
    requires l.derefs > 0
    ensures Str(l) == "[" + Str(l.(derefs := l.derefs - 1)) + "]" + ""
  {
  }

  lemma EvalBracket(l: Lambda, st: State)
    requires l.derefs > 0
    ensures Eval(l, st) == st.mem(Eval(l.(derefs := l.derefs - 1), st))
  {
  }

  lemma SameSum(l: Lambda, n: nat)
    ensures OneDisplacement(l.(derefs := n)) == OneDisplacement(l) && BasesNamed(l.(derefs := n)) == BasesNamed(l)
  {
  }

  lemma StrSum(l: Lambda, st: State)
    requires l.derefs == 0
    ensures Str(l) == StrObj(Bottom(l)) + DispText(Disps(l))
    ensures Eval(l, st) == EvalObj(Bottom(l), st) + Sum(Disps(l))
  {
    ChainText(l);
    ChainMeans(l, st);
  }

  lemma SumOfFew(disps: seq<int>)
    ensures disps == [] ==> Sum(disps) == 0
    ensures |disps| == 1 ==> Sum(disps) == disps[0]
  {
    if |disps| == 1 {
      assert disps == [disps[0]];
      OneDisp(disps[0]);
    }
  }

  lemma NameReadsBack(l: Lambda, predefined: Predefined, st: State)
    requires BasesNamed(l) && Agrees(predefined, st) && l.derefs == 0 && Bottom(l).Name?
    ensures Parse(Str(l), predefined).Some? <==> OneDisplacement(l)
    ensures OneDisplacement(l) ==> Denotes(Parse(Str(l), predefined), l, st)
  {
    StrSum(l, st);
    ChainParts(l);
    var t, disps := Bottom(l).text, Disps(l);
    ParseName(t, disps, predefined);
    SumOfFew(disps);
    var obj := if t in predefined then predefined[t] else Expr(Lambda(Name(t), 0, 0));
    assert obj.Expr? && Eval(obj.l, st) == st.regs(t);
    if |disps| == 1 {
      OperationsMean(obj.l, disps[0], st);
    }
    hide Parse;
    hide Str;
    hide Disps;
    hide DispText;
  }

  /**
    A printed expression is read back exactly when no sum in it has two non-zero
    displacements, and then the result has the same value in every state.
   */
  lemma {:induction false} ReadBack(l: Lambda, predefined: Predefined, st: State)
    requires BasesNamed(l) && Agrees(predefined, st)
    ensures Parse(Str(l), predefined).Some? <==> OneDisplacement(l)
    ensures OneDisplacement(l) ==> Denotes(Parse(Str(l), predefined), l, st)
    decreases Size(l)
  {
    hide Parse;
    hide Str;
    hide Eval;
    hide OneDisplacement;
    if l.derefs > 0 {
      var inner := l.(derefs := l.derefs - 1);
      SameSum(l, l.derefs - 1);
      ReadBack(inner, predefined, st);
      BracketReadsBack(inner, [], predefined, st);
      StrBracket(l);
      EvalBracket(l, st);
      assert "[" + Str(inner) + "]" + DispText([]) == "[" + Str(inner) + "]" + "";
    } else if Bottom(l).Nested? {
      var k := Bottom(l).inner;
      ChainParts(l);
      BottomSmaller(l);
      SameSum(k, k.derefs - 1);
      ReadBack(k.(derefs := k.derefs - 1), predefined, st);
      BracketReadsBack(k.(derefs := k.derefs - 1), Disps(l), predefined, st);
      NestedParts(l, st);
      SameSum(l, 0);
    } else {
      NameReadsBack(l, predefined, st);
    }
  }

  /** A sum on top of a dereferenced expression. */
  lemma NestedParts(l: Lambda, st: State)
    requires l.derefs == 0 && Bottom(l).Nested?
    ensures var k := Bottom(l).inner;
            var inner := k.(derefs := k.derefs - 1);
            && Str(l) == "[" + Str(inner) + "]" + DispText(Disps(l))
            && Eval(l, st) == st.mem(Eval(inner, st)) + Sum(Disps(l))
            && (OneDisplacement(l) <==> OneDisplacement(inner) && |Disps(l)| <= 1)
  {
    var k := Bottom(l).inner;
    var inner := k.(derefs := k.derefs - 1);
    StrSum(l, st);
    StrBracket(k);
    EvalBracket(k, st);
    SameSum(k, k.derefs - 1);
    assert OneDisplacement(l) <==> |Disps(l)| <= 1 && OneDisplacement(k);
    assert StrObj(Bottom(l)) == Str(k) && EvalObj(Bottom(l), st) == Eval(k, st);
    hide *;
    assert "[" + Str(inner) + "]" + "" == "[" + Str(inner) + "]";
  }

  /** Brackets around what is read back, with displacements behind. */
  lemma BracketReadsBack(inner: Lambda, disps: seq<int>, predefined: Predefined, st: State)
    requires Parse(Str(inner), predefined).Some? <==> OneDisplacement(inner)
    requires OneDisplacement(inner) ==> Denotes(Parse(Str(inner), predefined), inner, st)
    ensures var v := Parse("[" + Str(inner) + "]" + DispText(disps), predefined);
            && (v.Some? <==> OneDisplacement(inner) && |disps| <= 1)
            && (v.Some? ==> v.value.Expr? && Eval(v.value.l, st) == st.mem(Eval(inner, st)) + Sum(disps))
  {
    DispShape(disps);
    ParseBracketed(Str(inner), DispText(disps), predefined);
    ParseDisps(disps);
    if |disps| <= 1 && OneDisplacement(inner) {
      BracketedMeans(Sum(disps), Parse(Str(inner), predefined).value.l, st);
    }
    hide Parse;
    hide Str;
    hide Eval;
    hide Add;
    hide Deref;
    hide OneDisplacement;
  }

  /** Nested objects are dereferenced. */
  predicate NestedPositive(l: Lambda) {
    l.obj.Nested? ==> l.obj.inner.derefs > 0 && NestedPositive(l.obj.inner)
  }

  lemma {:induction false} PositiveHasOne(l: Lambda)
    requires NestedPositive(l)
    ensures OneDisplacement(l)
    decreases l
  {
    DispsStep(l);
    if l.obj.Nested? {
      PositiveHasOne(l.obj.inner);
    }
  }

  /** Expressions whose nested objects are dereferenced always survive printing and parsing. */
  lemma PositiveReadsBack(l: Lambda, st: State)
    requires BasesNamed(l) && NestedPositive(l)
    ensures Denotes(Parse(Str(l), map[]), l, st)
  {
    PositiveHasOne(l);
    ReadBack(l, map[], st);
  }

  /** `+` and `deref` never build anything else from a name. */
  lemma OperationsStayPositive(l: Lambda, other: int)
    requires NestedPositive(l)
    ensures NestedPositive(Add(l, other)) && NestedPositive(Deref(l))
    ensures BasesNamed(l) ==> BasesNamed(Add(l, other)) && BasesNamed(Deref(l))
  {
  }

  /** An object that is not dereferenced, with a displacement inside and one outside, prints text that is refused. */
  lemma TwoDisplacementsRefused(t: string, a: int, b: int)
    requires BaseName(t) && a != 0 && b != 0
    ensures Parse(Str(Lambda(Nested(Lambda(Name(t), a, 0)), b, 0)), map[]).None?
  {
    var l := Lambda(Nested(Lambda(Name(t), a, 0)), b, 0);
    DispsStep(l);
    DispsStep(l.obj.inner);
    assert Below(l.obj.inner) == [];
    assert Disps(l) == [a] + [b];
    ReadBack(l, map[], State(_ => 0, _ => 0));
  }
}
