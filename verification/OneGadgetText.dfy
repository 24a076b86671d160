/**
  What every text of a dereference expression is parsed to, by its shape
  (pwndbg/aglib/onegadget.py:96-127, 186-229).
 */
module OneGadgetText {
  import opened Options
  import opened PyInt
  import opened OneGadget

  /** `w` is `v` with a number added: to a dereferenced expression as a displacement around it, else to the one it has. */
  predicate Moved(v: Value, k: int, w: Value) {
    if k == 0 then w == v
    else
      match v
      case Num(n) => w == Num(n + k)
      case Expr(l) => w == Expr(if l.derefs > 0 then Lambda(Nested(l), k, 0) else Lambda(l.obj, l.immi + k, 0))
  }

  ghost predicate MovedTo(v: Value, k: int, r: Option<Value>) {
    r.Some? && Moved(v, k, r.value)
  }

  /** Nothing, an exclamation mark, and integer literals. */
  lemma NumberText(s: string, predefined: Predefined)
    ensures s == "" || s == "!" ==> Parse(s, predefined) == Some(Num(0))
    ensures s != "" && s != "!" && Int(s, 0).Some? ==> Parse(s, predefined) == Some(Num(Int(s, 0).value))
  {
  }

  /** Brackets that are closed, with text behind the last one: an expression inside and a number behind, or an error. */
  lemma BracketText(x: string, d: string, predefined: Predefined)
    requires ']' !in d
    ensures var r := Parse("[" + x + "]" + d, predefined);
            match (Parse(x, predefined), Parse(d, map[]))
            case (Some(Expr(l)), Some(Num(n))) => MovedTo(Expr(Lambda(l.obj, l.immi, l.derefs + 1)), n, r)
            case _ => r == None
  {
    ParseBracketed(x, d, predefined);
    hide Parse;
  }

  lemma {:induction false} RIndexNone(s: string, c: char)
    requires c !in s
    ensures RIndex(s, c).None?
    decreases |s|
  {
    if s != [] {
      RIndexNone(s[..|s| - 1], c);
    }
  }

  lemma OpenText(s: string, predefined: Predefined)
    requires s != "" && s[0] == '[' && ']' !in s
    ensures Parse(s, predefined) == None
  {
    NoLiteral(s);
    RIndexNone(s, ']');
    hide Int;
  }

  /** What a name stands for. */
  function Stands(t: string, predefined: Predefined): Value {
    if t in predefined then predefined[t] else Expr(Lambda(Name(t), 0, 0))
  }

  /** Other text without a sign is a name. */
  lemma NameText(s: string, predefined: Predefined)
    requires s != "" && s != "!" && s[0] != '[' && Int(s, 0).None? && '+' !in s && '-' !in s
    ensures Parse(s, predefined) == Some(Stands(s, predefined))
  {
    ParseMem(s, predefined);
    MemObjNone(s);
    hide Parse;
    hide Int;
  }

  /** With one sign it is a name and a displacement, which is an integer literal, or an error. */
  lemma SumText(t: string, sign: char, digits: string, predefined: Predefined)
    requires var s := t + [sign] + digits; s[0] != '[' && Int(s, 0).None?
    requires (sign == '+' || sign == '-') && NoSign(t) && NoSign(digits)
    ensures var r := Parse(t + [sign] + digits, predefined);
            match Int(digits, 0)
            case None => r == None
            case Some(k) => MovedTo(Stands(t, predefined), if sign == '-' then -k else k, r)
  {
    var s := t + [sign] + digits;
    NotBang(t, sign, digits);
    ParseMem(s, predefined);
    MemObjSum(t, sign, digits);
    hide *;
    OfMemMoved(t, if Int(digits, 0).None? then 0 else if sign == '-' then -Int(digits, 0).value else Int(digits, 0).value, predefined);
    OfMemNone(predefined);
  }

  lemma MemObjSum(t: string, sign: char, digits: string)
    requires (sign == '+' || sign == '-') && NoSign(t) && NoSign(digits)
    ensures MemObj(t + [sign] + digits) ==
            match Int(digits, 0)
            case None => None
            case Some(k) => Some((t, if sign == '-' then -k else k))
  {
    SplitAt(t, sign, digits);
    SplitNone(digits);
    MinusIn(t, sign, digits);
    hide Int;
    hide Split;
  }

  lemma OfMemMoved(t: string, k: int, predefined: Predefined)
    ensures MovedTo(Stands(t, predefined), k, OfMem(Some((t, k)), predefined))
  {
  }

  lemma OfMemNone(predefined: Predefined)
    ensures OfMem(None, predefined) == None
  {
  }

  lemma NotBang(t: string, sign: char, digits: string)
    requires sign == '+' || sign == '-'
    ensures t + [sign] + digits != "" && t + [sign] + digits != "!"
  {
    assert (t + [sign] + digits)[|t|] == sign;
  }

  /** With two signs or more it is an error. */
  lemma TwoSignsText(t: string, sign1: char, u: string, sign2: char, rest: string, predefined: Predefined)
    requires var s := t + [sign1] + (u + [sign2] + rest); s[0] != '[' && Int(s, 0).None?
    requires (sign1 == '+' || sign1 == '-') && (sign2 == '+' || sign2 == '-') && NoSign(t) && NoSign(u)
    ensures Parse(t + [sign1] + (u + [sign2] + rest), predefined) == None
  {
    var s := t + [sign1] + (u + [sign2] + rest);
    NotBang(t, sign1, u + [sign2] + rest);
    SplitAt(t, sign1, u + [sign2] + rest);
    SplitAt(u, sign2, rest);
    hide Int;
    hide Split;
    SumFails(s, predefined);
  }

  lemma {:induction false} LastOf(s: string, c: char) returns (i: nat)
    requires c in s
    ensures i < |s| && s[i] == c && c !in s[i + 1..]
    decreases |s|
  {
    var front := s[..|s| - 1];
    if s[|s| - 1] == c {
      i := |s| - 1;
    } else {
      assert s == front + [s[|s| - 1]];
      i := LastOf(front, c);
      assert s[i + 1..] == front[i + 1..] + [s[|s| - 1]];
    }
  }

  lemma {:induction false} FirstSign(s: string) returns (i: nat)
    requires !NoSign(s)
    ensures i < |s| && IsSign(s[i]) && NoSign(s[..i])
    decreases |s|
  {
    if IsSign(s[0]) {
      i := 0;
    } else {
      assert s == [s[0]] + s[1..];
      i := FirstSign(s[1..]);
      i := i + 1;
      assert s[..i] == [s[0]] + s[1..][..i - 1];
    }
  }

  /** Every text is of one of these shapes. */
  lemma Shapes(s: string) returns (t: string, sign: char, rest: string)
    ensures s != "" && s[0] == '[' && ']' in s ==> ']' !in rest && s == "[" + t + "]" + rest
    ensures s != "" && s[0] != '[' && !NoSign(s) ==> (sign == '+' || sign == '-') && NoSign(t) && s == t + [sign] + rest
  {
    t, sign, rest := "", ' ', "";
    if s != "" && s[0] == '[' && ']' in s {
      var i := LastOf(s, ']');
      t, rest := s[1..i], s[i + 1..];
      assert s == "[" + t + "]" + rest;
    } else if s != "" && !NoSign(s) {
      var i := FirstSign(s);
      t, sign, rest := s[..i], s[i], s[i + 1..];
      assert s == t + [sign] + rest;
    }
  }

  lemma BracketSmall(text: string)
    ensures Bracket(text, 0) == text && Bracket(text, 1) == "[" + text + "]" && Bracket(text, 2) == "[" + ("[" + text + "]") + "]"
  {
    assert Bracket(text, 1) == "[" + Bracket(text, 0) + "]";
    assert Bracket(text, 2) == "[" + Bracket(text, 1) + "]";
  }

  lemma StrIs(l: Lambda)
    ensures Str(l) == Bracket((match l.obj case Name(t) => t case Nested(k) => Str(k)) + Disp(l.immi), l.derefs)
  {
    hide Bracket;
    hide Disp;
  }

  lemma Displacements()
    ensures Disp(0x50) == "+0x50" && Disp(-8) == "-0x8" && Disp(0xAF) == "+0xaf" && Disp(0) == ""
  {
    assert Hex(0x50) == Hex(5) + "0" && Hex(0xAF) == Hex(10) + "f";
    assert Hex(5) == "5" && Hex(8) == "8" && Hex(10) == "a";
  }

  /** Printed: brackets as often as it is dereferenced, and a signed hexadecimal displacement unless it is zero. */
  lemma PrintedText()
    ensures Str(Lambda(Nested(Lambda(Name("rsp"), 0x50, 1)), -8, 1)) == "[[rsp+0x50]-0x8]"
    ensures Str(Lambda(Name("rax"), 0, 2)) == "[[rax]]"
    ensures Str(Lambda(Nested(Lambda(Name("r12"), 0, 1)), 0xAF, 0)) == "[r12]+0xaf"
  {
    hide *;
    Displacements();
    BracketSmall("rsp" + "+0x50");
    BracketSmall("[rsp+0x50]" + "-0x8");
    BracketSmall("rax" + "");
    BracketSmall("r12" + "");
    BracketSmall("[r12]" + "+0xaf");
    StrIs(Lambda(Name("rsp"), 0x50, 1));
    StrIs(Lambda(Nested(Lambda(Name("rsp"), 0x50, 1)), -8, 1));
    StrIs(Lambda(Name("rax"), 0, 2));
    StrIs(Lambda(Name("r12"), 0, 1));
    StrIs(Lambda(Nested(Lambda(Name("r12"), 0, 1)), 0xAF, 0));
    assert "[" + ("rsp" + "+0x50") + "]" == "[rsp+0x50]";
    assert "[" + ("[rsp+0x50]" + "-0x8") + "]" == "[[rsp+0x50]-0x8]";
    assert "rax" + "" == "rax" && "r12" + "" == "r12";
    assert "[" + "r12" + "]" == "[r12]" && "[r12]" + "+0xaf" == "[r12]+0xaf";
  }
}
