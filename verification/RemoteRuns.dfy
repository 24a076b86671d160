/**
  Why a remote read ends as it does, and what it yields, from the replies alone
  (pwndbg/aglib/file.py:208-230), and what the replies say, byte by byte
  (pwndbg/aglib/file.py:166-306).
 */
module RemoteRuns {
  import opened Options
  import opened PyInt
  import opened RemoteFile

  // ----- One run -----

  /** The stub's answer to the `i`-th read of a run. */
  function AnswerAt(stub: Stub, sent: seq<Packet>, asked: seq<Packet>, i: nat): Result<(int, seq<Byte>)>
    requires i < |asked|
  {
    ParsePread(stub.reply(sent + asked[..i + 1]), stub.qemuBug)
  }

  /** A read that makes the loop go on. */
  predicate Continues(answer: Result<(int, seq<Byte>)>) {
    answer.Ok? && answer.value.0 != 0
  }

  /** The reads of a run: each where the one before said it ended, until an answer does not let it go on. */
  ghost predicate InSequence(stub: Stub, sent: seq<Packet>, asked: seq<Packet>, fd: int, size: int, offset: int) {
    && (forall i | 0 <= i < |asked| - 1 :: Continues(AnswerAt(stub, sent, asked, i)))
    && (forall i | 0 <= i < |asked| :: ReadAt(stub, sent, asked, fd, size, offset, i))
  }

  ghost predicate ReadAt(stub: Stub, sent: seq<Packet>, asked: seq<Packet>, fd: int, size: int, offset: int, i: nat)
    requires i < |asked|
  {
    && asked[i].Pread? && asked[i].fd == fd && asked[i].size == size
    && if i == 0 then asked[i].offset == offset
       else
         && AnswerAt(stub, sent, asked, i - 1).Ok? && asked[i - 1].Pread?
         && asked[i].offset == asked[i - 1].offset + AnswerAt(stub, sent, asked, i - 1).value.0
  }

  /** The data of the answers that let the loop go on, in order. */
  ghost predicate Yields(stub: Stub, sent: seq<Packet>, asked: seq<Packet>, chunks: seq<seq<Byte>>) {
    && |chunks| <= |asked|
    && (forall i | 0 <= i < |chunks| :: Continues(AnswerAt(stub, sent, asked, i)) && chunks[i] == AnswerAt(stub, sent, asked, i).value.1)
    && (forall i | |chunks| <= i < |asked| :: !Continues(AnswerAt(stub, sent, asked, i)))
  }

  /** How the loop ended, by its last answer. */
  ghost predicate EndsBy(stub: Stub, sent: seq<Packet>, asked: seq<Packet>, budget: nat, ending: Ending) {
    if asked == [] then budget == 0 && ending == Abandoned
    else
      match AnswerAt(stub, sent, asked, |asked| - 1)
      case Fail(e) => ending == Raised(e) && |asked| <= budget
      case Ok((n, _)) => if n == 0 then ending == Finished && |asked| <= budget else ending == Abandoned && |asked| == budget
  }

  lemma AnswerShift(stub: Stub, sent: seq<Packet>, p: Packet, asked: seq<Packet>, i: nat)
    requires i < |asked|
    ensures AnswerAt(stub, sent, [p] + asked, i + 1) == AnswerAt(stub, sent + [p], asked, i)
  {
    assert sent + ([p] + asked)[..i + 2] == sent + [p] + asked[..i + 1];
  }

  lemma AnswerFirst(stub: Stub, sent: seq<Packet>, p: Packet, asked: seq<Packet>)
    ensures AnswerAt(stub, sent, [p] + asked, 0) == ParsePread(stub.reply(sent + [p]), stub.qemuBug)
  {
    assert ([p] + asked)[..1] == [p];
  }

  lemma FirstInSequence(stub: Stub, sent: seq<Packet>, asked: seq<Packet>, fd: int, size: int, offset: int, n: int)
    requires ParsePread(stub.reply(sent + [Pread(fd, size, offset)]), stub.qemuBug).Ok?
    requires n == ParsePread(stub.reply(sent + [Pread(fd, size, offset)]), stub.qemuBug).value.0 != 0
    requires InSequence(stub, sent + [Pread(fd, size, offset)], asked, fd, size, offset + n)
    ensures InSequence(stub, sent, [Pread(fd, size, offset)] + asked, fd, size, offset)
  {
    hide AnswerAt;
    var p := Pread(fd, size, offset);
    var all := [p] + asked;
    AnswerFirst(stub, sent, p, asked);
    forall i | 0 <= i < |all| - 1 ensures Continues(AnswerAt(stub, sent, all, i)) {
      if i > 0 {
        AnswerShift(stub, sent, p, asked, i - 1);
      }
    }
    forall i | 0 <= i < |all| ensures ReadAt(stub, sent, all, fd, size, offset, i) {
      if i > 0 {
        assert ReadAt(stub, sent + [p], asked, fd, size, offset + n, i - 1);
        if i > 1 {
          AnswerShift(stub, sent, p, asked, i - 2);
        }
      }
    }
  }

  lemma FirstYields(stub: Stub, sent: seq<Packet>, p: Packet, asked: seq<Packet>, data: seq<Byte>, chunks: seq<seq<Byte>>)
    requires var answer := ParsePread(stub.reply(sent + [p]), stub.qemuBug); Continues(answer) && answer.value.1 == data
    requires Yields(stub, sent + [p], asked, chunks)
    ensures Yields(stub, sent, [p] + asked, [data] + chunks)
  {
    hide AnswerAt;
    var all, more := [p] + asked, [data] + chunks;
    AnswerFirst(stub, sent, p, asked);
    forall i | 0 <= i < |more|
      ensures Continues(AnswerAt(stub, sent, all, i)) && more[i] == AnswerAt(stub, sent, all, i).value.1
    {
      if i > 0 {
        AnswerShift(stub, sent, p, asked, i - 1);
      }
    }
    forall i | |more| <= i < |all| ensures !Continues(AnswerAt(stub, sent, all, i)) {
      AnswerShift(stub, sent, p, asked, i - 1);
    }
  }

  lemma FirstEnds(stub: Stub, sent: seq<Packet>, p: Packet, asked: seq<Packet>, budget: nat, ending: Ending)
    requires Continues(ParsePread(stub.reply(sent + [p]), stub.qemuBug)) && EndsBy(stub, sent + [p], asked, budget, ending)
    ensures EndsBy(stub, sent, [p] + asked, budget + 1, ending)
  {
    hide ParsePread;
    AnswerFirst(stub, sent, p, asked);
    if asked != [] {
      AnswerShift(stub, sent, p, asked, |asked| - 1);
    }
    hide AnswerAt;
  }

  /** The loop, whatever the stub answers. */
  lemma {:induction false} LoopRun(stub: Stub, sent: seq<Packet>, fd: int, size: int, offset: int, budget: nat) returns (asked: seq<Packet>)
    ensures var o := ReadLoop(stub, sent, fd, size, offset, budget);
            && o.log == sent + asked && InSequence(stub, sent, asked, fd, size, offset)
            && Yields(stub, sent, asked, o.chunks) && EndsBy(stub, sent, asked, budget, o.ending)
    decreases budget
  {
    var answer := ParsePread(stub.reply(sent + [Pread(fd, size, offset)]), stub.qemuBug);
    hide *;
    if budget == 0 {
      NoRun(stub, sent, fd, size, offset);
      asked := [];
    } else if Continues(answer) {
      ContinuesMeans(answer);
      var (n, data) := answer.value;
      var rest := LoopRun(stub, sent + [Pread(fd, size, offset)], fd, size, offset + n, budget - 1);
      asked := [Pread(fd, size, offset)] + rest;
      FirstRun(stub, sent, fd, size, offset, n, data, rest,
               ReadLoop(stub, sent + [Pread(fd, size, offset)], fd, size, offset + n, budget - 1), budget - 1);
      NextRead(stub, sent, fd, size, offset, budget, n, data);
    } else {
      LastRun(stub, sent, fd, size, offset, budget);
      asked := [Pread(fd, size, offset)];
    }
  }

  lemma NoRun(stub: Stub, sent: seq<Packet>, fd: int, size: int, offset: int)
    ensures var o := ReadLoop(stub, sent, fd, size, offset, 0);
            && o.log == sent + [] && InSequence(stub, sent, [], fd, size, offset)
            && Yields(stub, sent, [], o.chunks) && EndsBy(stub, sent, [], 0, o.ending)
  {
    ReadLoopEnd(stub, sent, fd, size, offset);
  }

  lemma LastRun(stub: Stub, sent: seq<Packet>, fd: int, size: int, offset: int, budget: nat)
    requires budget > 0 && !Continues(ParsePread(stub.reply(sent + [Pread(fd, size, offset)]), stub.qemuBug))
    ensures var o, asked := ReadLoop(stub, sent, fd, size, offset, budget), [Pread(fd, size, offset)];
            && o.log == sent + asked && InSequence(stub, sent, asked, fd, size, offset)
            && Yields(stub, sent, asked, o.chunks) && EndsBy(stub, sent, asked, budget, o.ending)
  {
    var p := Pread(fd, size, offset);
    ReadLoopStep(stub, sent, fd, size, offset, budget);
    AnswerFirst(stub, sent, p, []);
    assert [p] + [] == [p];
    hide ParsePread;
    hide ReadLoop;
    hide AnswerAt;
  }

  lemma ContinuesMeans(answer: Result<(int, seq<Byte>)>)
    requires Continues(answer)
    ensures answer.Ok? && answer.value.0 != 0
  {
  }

  lemma FirstRun(stub: Stub, sent: seq<Packet>, fd: int, size: int, offset: int, n: int, data: seq<Byte>, rest: seq<Packet>, o: Outcome, budget: nat)
    requires ParsePread(stub.reply(sent + [Pread(fd, size, offset)]), stub.qemuBug) == Ok((n, data)) && n != 0
    requires o.log == sent + [Pread(fd, size, offset)] + rest
    requires InSequence(stub, sent + [Pread(fd, size, offset)], rest, fd, size, offset + n)
    requires Yields(stub, sent + [Pread(fd, size, offset)], rest, o.chunks)
    requires EndsBy(stub, sent + [Pread(fd, size, offset)], rest, budget, o.ending)
    ensures var asked, c := [Pread(fd, size, offset)] + rest, Chunk(data, o);
            && c.log == sent + asked && InSequence(stub, sent, asked, fd, size, offset)
            && Yields(stub, sent, asked, c.chunks) && EndsBy(stub, sent, asked, budget + 1, c.ending)
  {
    hide InSequence;
    hide Yields;
    hide EndsBy;
    hide ParsePread;
    var p := Pread(fd, size, offset);
    FirstInSequence(stub, sent, rest, fd, size, offset, n);
    FirstYields(stub, sent, p, rest, data, o.chunks);
    FirstEnds(stub, sent, p, rest, budget, o.ending);
    assert sent + [p] + rest == sent + ([p] + rest);
  }

  /**
    For every stub and consumer of a file that was opened: the log between open
    and close is the sequence of reads the answers ask for, the chunks are their
    data, and the ending is the error of a refused close or else follows from the
    last answer: its error, the end of the file, or a consumer that has enough.
   */
  lemma RunExplained(stub: Stub, log: seq<Packet>, name: string, size: int, budget: nat, fd: int) returns (asked: seq<Packet>)
    requires budget > 0 && ParseOpen(stub.reply(log + [Open(name, 0, 0)]), stub.qemuBug) == Ok(fd)
    ensures var o, sent := ReadFile(stub, log, name, size, budget), log + [Open(name, 0, 0)];
            && o.log == sent + asked + [Close(fd)] && asked != []
            && InSequence(stub, sent, asked, fd, size, 0) && Yields(stub, sent, asked, o.chunks)
            && match CheckResponse(stub.reply(o.log), stub.qemuBug)
               case Some(e) => o.ending == Raised(e)
               case None => EndsBy(stub, sent, asked, budget, o.ending)
  {
    asked := LoopRun(stub, log + [Open(name, 0, 0)], fd, size, 0, budget);
    hide ReadLoop;
    hide ParseOpen;
    hide CheckResponse;
    hide InSequence;
    hide Yields;
    hide AnswerAt;
  }

  /** The same by the ending: which replies make it which. */
  lemma EndingExactly(stub: Stub, log: seq<Packet>, name: string, size: int, budget: nat, fd: int)
    requires budget > 0 && ParseOpen(stub.reply(log + [Open(name, 0, 0)]), stub.qemuBug) == Ok(fd)
    ensures var o, n := ReadFile(stub, log, name, size, budget), |log| + 1;
            && |o.log| > n + 1
            && var last := ParsePread(stub.reply(o.log[..|o.log| - 1]), stub.qemuBug);
            && var closed := CheckResponse(stub.reply(o.log), stub.qemuBug);
            && (closed.Some? ==> o.ending == Raised(closed.value))
            && (closed.None? ==>
                  && (forall e :: o.ending == Raised(e) <==> last == Fail(e))
                  && (o.ending == Finished <==> last.Ok? && last.value.0 == 0)
                  && (o.ending == Abandoned <==> |o.chunks| == budget))
  {
    var asked := RunExplained(stub, log, name, size, budget, fd);
    var o, sent := ReadFile(stub, log, name, size, budget), log + [Open(name, 0, 0)];
    assert o.log[..|o.log| - 1] == sent + asked && asked[..|asked|] == asked;
    hide ReadFile;
    hide ParsePread;
    hide ParseOpen;
    hide CheckResponse;
    hide InSequence;
  }

  /** A file that is not opened is not closed either, and one nobody asks for is not opened. */
  lemma NotOpened(stub: Stub, log: seq<Packet>, name: string, size: int, budget: nat)
    ensures budget == 0 ==> ReadFile(stub, log, name, size, budget) == Outcome([], log, Abandoned)
    ensures budget > 0 ==>
              var answer := ParseOpen(stub.reply(log + [Open(name, 0, 0)]), stub.qemuBug);
              answer.Fail? ==> ReadFile(stub, log, name, size, budget) == Outcome([], log + [Open(name, 0, 0)], Raised(answer.error))
  {
    hide ParseOpen;
    hide Closing;
    hide ReadLoop;
  }

  // ----- The replies, byte by byte -----

  /** An escaped byte is sent with bit 0x20 flipped. */
  lemma FlipIsXor(x: bv8)
    ensures (x as int) < 256 && Flip(x as int) == (x ^ 0x20) as int
  {
    assert x & 0x20 == 0 ==> x ^ 0x20 == x + 0x20;
    assert x & 0x20 != 0 ==> x ^ 0x20 == x - 0x20;
    assert (x >> 5) & 1 == 0 <==> x & 0x20 == 0;
    Shifted(x);
  }

  lemma Shifted(x: bv8)
    ensures (x >> 5) as int == x as int / 32 && ((x >> 5) & 1) as int == x as int / 32 % 2
  {
  }

  /** The bytes of a number, in the notation the stub uses for it. */
  function Numeral(n: nat, decimal: bool): seq<Byte> {
    NumeralAscii(n, decimal);
    AsciiBytes(if decimal then Dec(n) else Hex(n))
  }

  lemma NumeralAscii(n: nat, decimal: bool)
    ensures var s := if decimal then Dec(n) else Hex(n); forall i | 0 <= i < |s| :: s[i] < 128 as char
  {
    DigitsRead(n, if decimal then 10 else 16);
    var s := if decimal then Dec(n) else Hex(n);
    forall i | 0 <= i < |s| ensures s[i] < 128 as char {
      assert IsDigit(s[i], if decimal then 10 else 16);
    }
  }

  lemma NumeralRead(n: nat, decimal: bool)
    ensures ToInt(Numeral(n, decimal), if decimal then 10 else 16) == Some(n)
    ensures 44 !in Numeral(n, decimal) && 59 !in Numeral(n, decimal) && Numeral(n, decimal) != []
  {
    var base := if decimal then 10 else 16;
    var s := if decimal then Dec(n) else Hex(n);
    NumeralAscii(n, decimal);
    DigitsRead(n, base);
    hide Digits;
    hide Int;
    hide Number;
    PlainRead(s, base, n);
    NumeralBytes(s, base);
    hide AllDigits;
  }

  lemma NumeralBytes(s: string, base: nat)
    requires s != "" && AllDigits(s, base) && forall i | 0 <= i < |s| :: s[i] < 128 as char
    ensures Text(AsciiBytes(s)) == Some(s) && 44 !in AsciiBytes(s) && 59 !in AsciiBytes(s)
  {
    var bytes := AsciiBytes(s);
    assert Text(bytes).value == s;
    forall i | 0 <= i < |bytes| ensures bytes[i] != 44 && bytes[i] != 59 {
      assert IsDigit(s[i], base);
    }
  }

  lemma PlainRead(s: string, base: nat, n: nat)
    requires (base == 10 || base == 16) && s != "" && AllDigits(s, base) && Number(s, base) == Some(n)
    ensures Int(s, base) == Some(n)
  {
    assert IsDigit(s[0], base) && IsDigit(s[|s| - 1], base);
    assert |s| > 1 ==> IsDigit(s[1], base);
    NotStripped(s);
    hide Number;
    hide StripLeft;
    hide StripRight;
  }

  /** "F" and a number: the descriptor, in decimal from a stub with the known bug and in hexadecimal from others. */
  lemma OpenedRead(fd: nat, qemuBug: bool)
    ensures ParseOpen([70] + Numeral(fd, qemuBug), qemuBug) == Ok(fd)
  {
    NumeralRead(fd, qemuBug);
    hide Numeral;
    hide ToInt;
    var r := [70 as Byte] + Numeral(fd, qemuBug);
    CutNothing(r, 59);
    assert r[1..] == Numeral(fd, qemuBug);
    assert 44 !in r;
  }

  /** "F-1," and a number in the same notation: that error. */
  lemma RefusedRead(errno: nat, qemuBug: bool)
    ensures CheckResponse([70, 45, 49, 44] + Numeral(errno, qemuBug), qemuBug) == Some(OsError(errno))
  {
    NumeralRead(errno, qemuBug);
    MinusOne();
    hide Numeral;
    hide ToInt;
    var r := [70 as Byte, 45, 49, 44] + Numeral(errno, qemuBug);
    CutNothing(r, 59);
    assert r[1..] == [45, 49] + [44] + Numeral(errno, qemuBug);
    CutAt([45, 49], 44, Numeral(errno, qemuBug));
    assert r[3] in r;
  }

  lemma MinusOne()
    ensures ToInt([45, 49], 10) == Some(-1)
  {
    Numerals();
  }

  /** Any other status before an error number is not understood. */
  lemma OtherStatus(status: nat, errno: seq<Byte>, qemuBug: bool)
    requires 59 !in errno
    ensures CheckResponse([70] + Numeral(status, true) + [44] + errno, qemuBug) == Some(UnknownStatus)
  {
    NumeralRead(status, true);
    hide Numeral;
    hide ToInt;
    var n := Numeral(status, true);
    var r := [70 as Byte] + n + [44] + errno;
    CutNothing(r, 59);
    assert r[1..] == n + [44] + errno;
    CutAt(n, 44, errno);
    assert r[|n| + 1] == 44 && r[|n| + 1] in r;
  }

  /** An empty reply means that the stub does not know the packet, any without an error number that it agrees. */
  lemma Agreed(status: nat, decimal: bool, qemuBug: bool)
    ensures CheckResponse([], qemuBug) == Some(NotSupported)
    ensures CheckResponse([70] + Numeral(status, decimal), qemuBug) == None
  {
    NumeralRead(status, decimal);
    hide Numeral;
    hide ToInt;
    var r := [70 as Byte] + Numeral(status, decimal);
    CutNothing(r, 59);
  }

  /** A reply that does not begin with "F" is not taken for an error. */
  lemma OtherLetter(response: seq<Byte>, qemuBug: bool)
    requires response != [] && response[0] != 70
    ensures CheckResponse(response, qemuBug) == None
  {
    var head := Cut(response, SEMICOLON).0;
    assert head != [] ==> head[0] == response[0];
    hide Cut;
  }

  /** A count in hexadecimal, a semicolon and escaped bytes: the count as it is, and the bytes, whether they agree or not. */
  lemma CountedRead(n: nat, attachment: seq<Byte>, qemuBug: bool)
    ensures ParsePread([70] + Numeral(n, false) + [59] + attachment, qemuBug)
         == var data := Unescape(attachment); if data.None? then Fail(EndOfData) else Ok((n, data.value))
  {
    NumeralRead(n, false);
    hide Numeral;
    hide ToInt;
    hide Unescape;
    var count := Numeral(n, false);
    var r := [70 as Byte] + count + [59] + attachment;
    CutAt([70] + count, 59, attachment);
    assert r[1..] == count + [59] + attachment;
    CutAt(count, 59, attachment);
    assert CheckResponse(r, qemuBug).None?;
  }

  /** A read reply without a semicolon ends too early, one whose count is no number is not understood. */
  lemma UncountedRead(n: nat, qemuBug: bool)
    ensures ParsePread([70] + Numeral(n, false), qemuBug) == Fail(EndOfData)
    ensures ParsePread([70], qemuBug) == Fail(BadNumber)
  {
    NumeralRead(n, false);
    hide Numeral;
    var count := Numeral(n, false);
    var r := [70 as Byte] + count;
    CutNothing(r, 59);
    CutNothing(count, 59);
    assert r[1..] == count;
    assert ToInt([], 16).None?;
    hide ToInt;
    CutNothing([70], 59);
    assert [70 as Byte][1..] == [];
  }
}
