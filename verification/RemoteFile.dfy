/**
  Reading a file through GDB's vFile packets (pwndbg/aglib/file.py:180-306):
  reply parsing, unescaping, and the read loop with its final close.  Binary data
  is escaped as in "Overview" of the appendix on the GDB Remote Serial Protocol.
 */
module RemoteFile {
  import opened Options
  import opened PyInt

  type Byte = b: int | 0 <= b < 256

  const BRACE: Byte := 125
  const SEMICOLON: Byte := 59
  const COMMA: Byte := 44
  const LETTER_F: Byte := 70

  datatype Error = NotSupported | UnknownStatus | BadNumber | OsError(errno: int) | EndOfData

  datatype Result<+T> = Ok(value: T) | Fail(error: Error)

  // ----- Unescaping -----

  /** b ^ 0x20 */
  function Flip(b: Byte): (r: Byte)
    ensures r == b + 32 || r == b - 32
  {
    if b / 32 % 2 == 0 then b + 32 else b - 32
  }

  /** What the escaped data says; None for an escape at the very end, an IndexError. */
  function Unescape(data: seq<Byte>): Option<seq<Byte>> {
    if data == [] then Some([])
    else if data[0] == BRACE then
      if |data| < 2 then None else Before(Flip(data[1]), Unescape(data[2..]))
    else Before(data[0], Unescape(data[1..]))
  }

  function Before(b: Byte, rest: Option<seq<Byte>>): Option<seq<Byte>> {
    if rest.None? then None else Some([b] + rest.value)
  }

  function Behind(buffer: seq<Byte>, rest: Option<seq<Byte>>): Option<seq<Byte>> {
    if rest.None? then None else Some(buffer + rest.value)
  }

  lemma BehindNothing(rest: Option<seq<Byte>>)
    ensures Behind([], rest) == rest
  {
    assert rest.Some? ==> [] + rest.value == rest.value;
  }

  lemma BehindMore(buffer: seq<Byte>, b: Byte, rest: Option<seq<Byte>>)
    ensures Behind(buffer, Before(b, rest)) == Behind(buffer + [b], rest)
  {
    assert rest.Some? ==> buffer + ([b] + rest.value) == (buffer + [b]) + rest.value;
  }

  lemma UnescapeStep(data: seq<Byte>, i: nat)
    requires i < |data|
    ensures Unescape(data[i..]) ==
            if data[i] == BRACE then if i + 1 >= |data| then None else Before(Flip(data[i + 1]), Unescape(data[i + 2..]))
            else Before(data[i], Unescape(data[i + 1..]))
  {
    assert data[i..][1..] == data[i + 1..];
    assert i + 1 < |data| ==> data[i..][2..] == data[i + 2..];
  }

  /** gdb_memtox_inverse */
  method GdbMemtoxInverse(data: seq<Byte>) returns (r: Option<seq<Byte>>)
    ensures r == Unescape(data)
  {
    hide Unescape;
    hide Behind;
    hide Before;
    var buffer: seq<Byte> := [];
    var i := 0;
    assert data[0..] == data;
    BehindNothing(Unescape(data));
    ghost var all := Unescape(data);
    while i < |data|
      invariant i <= |data|
      invariant all == Behind(buffer, Unescape(data[i..]))
    {
      var b := data[i];
      UnescapeStep(data, i);
      if b == BRACE {
        if i + 1 >= |data| {
          BehindNone(buffer);
          return None;
        }
        BehindMore(buffer, Flip(data[i + 1]), Unescape(data[i + 2..]));
        buffer := buffer + [Flip(data[i + 1])];
        i := i + 1;
      } else {
        BehindMore(buffer, b, Unescape(data[i + 1..]));
        buffer := buffer + [b];
      }
      i := i + 1;
    }
    BehindAll(buffer, data[i..]);
    r := Some(buffer);
  }

  lemma BehindNone(buffer: seq<Byte>)
    ensures Behind(buffer, None) == None
  {
  }

  lemma BehindAll(buffer: seq<Byte>, rest: seq<Byte>)
    requires rest == []
    ensures Behind(buffer, Unescape(rest)) == Some(buffer)
  {
    assert buffer + [] == buffer;
  }

  function EscapeByte(b: Byte, reserved: set<Byte>): seq<Byte> {
    if b in reserved then [BRACE, Flip(b)] else [b]
  }

  /** The sender's side: every reserved byte is sent as a brace and the byte flipped. */
  function Escape(data: seq<Byte>, reserved: set<Byte>): seq<Byte> {
    if data == [] then [] else EscapeByte(data[0], reserved) + Escape(data[1..], reserved)
  }

  lemma FlipTwice(b: Byte)
    ensures Flip(Flip(b)) == b
  {
  }

  lemma UnescapeByte(b: Byte, reserved: set<Byte>, rest: seq<Byte>)
    requires 125 in reserved
    ensures Unescape(EscapeByte(b, reserved) + rest) == Before(b, Unescape(rest))
  {
    var s := EscapeByte(b, reserved) + rest;
    FlipTwice(b);
    if b in reserved {
      assert s[2..] == rest;
    } else {
      assert s[1..] == rest;
    }
  }

  /** Unescaping undoes escaping, whichever other bytes the sender reserves. */
  lemma {:induction false} EscapeRoundTrip(data: seq<Byte>, reserved: set<Byte>)
    requires 125 in reserved
    ensures Unescape(Escape(data, reserved)) == Some(data)
    decreases |data|
  {
    if data != [] {
      hide Unescape;
      hide EscapeByte;
      EscapeRoundTrip(data[1..], reserved);
      UnescapeByte(data[0], reserved, Escape(data[1..], reserved));
      assert [data[0]] + data[1..] == data;
    }
  }

  /** How many braces the data ends with. */
  function TrailingBraces(data: seq<Byte>): nat {
    if data == [] || data[|data| - 1] != BRACE then 0 else 1 + TrailingBraces(data[..|data| - 1])
  }

  lemma {:induction false} TrailingOfTail(data: seq<Byte>, n: nat)
    requires n < |data|
    ensures TrailingBraces(data) == if TrailingBraces(data[n..]) == |data| - n then |data| - n + TrailingBraces(data[..n]) else TrailingBraces(data[n..])
    ensures TrailingBraces(data[n..]) <= |data| - n
    decreases |data|
  {
    var tail := data[n..];
    assert tail[|tail| - 1] == data[|data| - 1];
    if data[|data| - 1] == BRACE {
      var front := data[..|data| - 1];
      assert tail[..|tail| - 1] == front[n..] && front[..n] == data[..n];
      if n < |front| {
        TrailingOfTail(front, n);
      } else {
        assert front[n..] == [] && front == data[..n];
      }
    }
  }

  /** Data is refused exactly when it ends with an odd number of braces. */
  lemma {:induction false} UnescapeFails(data: seq<Byte>)
    ensures Unescape(data).None? <==> TrailingBraces(data) % 2 == 1
    decreases |data|
  {
    if |data| == 1 {
      assert data[..0] == [] && data[1..] == [];
      assert Unescape(data[1..]).Some?;
    } else if |data| > 1 {
      var n := if data[0] == BRACE then 2 else 1;
      UnescapeFails(data[n..]);
      AfterStep(data, n);
    }
  }

  lemma AfterStep(data: seq<Byte>, n: nat)
    requires |data| >= 2 && n == if data[0] == BRACE then 2 else 1
    ensures TrailingBraces(data) % 2 == TrailingBraces(data[n..]) % 2
  {
    hide *;
    FirstBraces(data);
    if n < |data| {
      TrailingOfTail(data, n);
      ParityOfSum(|data| - n, TrailingBraces(data[..n]));
    } else {
      assert data == data[..2] && data[n..] == [];
    }
  }

  lemma ParityOfSum(a: nat, b: nat)
    requires b == 0 || b == 2
    ensures (a + b) % 2 == a % 2
  {
  }

  lemma FirstBraces(data: seq<Byte>)
    requires |data| >= 2
    ensures TrailingBraces([]) == 0
    ensures TrailingBraces(data[..1]) == if data[0] == BRACE then 1 else 0
    ensures data[0] == BRACE ==> TrailingBraces(data[..2]) == if data[1] == BRACE then 2 else 0
  {
    assert data[..1][..0] == [] && data[..2][..1] == data[..1];
  }

  // ----- Replies -----

  predicate Ascii(s: seq<Byte>) { forall i | 0 <= i < |s| :: s[i] < 128 }

  /** The characters of a reply; None where it is not ASCII, which is no number. */
  function Text(s: seq<Byte>): Option<string> {
    if Ascii(s) then Some(seq(|s|, i requires 0 <= i < |s| && s[i] < 128 => s[i] as char)) else None
  }

  function ToInt(s: seq<Byte>, base: nat): Option<int>
    requires base in {10, 16}
  {
    var t := Text(s);
    if t.None? then None else Int(t.value, base)
  }

  /** bytes.split(sep, 1): the part before the separator, and the part behind if there is one. */
  function Cut(s: seq<Byte>, sep: Byte): (seq<Byte>, Option<seq<Byte>>) {
    if s == [] then ([], None)
    else if s[0] == sep then ([], Some(s[1..]))
    else
      var (head, tail) := Cut(s[1..], sep);
      ([s[0]] + head, tail)
  }

  /** _vfile_check_response: the exception a reply raises; `qemuBug` makes error numbers decimal. */
  function CheckResponse(response: seq<Byte>, qemuBug: bool): Option<Error> {
    if response == [] then Some(NotSupported)
    else
      var head := Cut(response, SEMICOLON).0;
      if head == [] || head[0] != LETTER_F || COMMA !in head then None
      else
        var (result, errno) := Cut(head[1..], COMMA);
        var status := ToInt(result, 10);
        if status.None? then Some(BadNumber)
        else if status.value != -1 then Some(UnknownStatus)
        else
          var err := ToInt(if errno.Some? then errno.value else [], if qemuBug then 10 else 16);
          Some(if err.None? then BadNumber else OsError(err.value))
  }

  function ParseOpen(response: seq<Byte>, qemuBug: bool): Result<int> {
    var e := CheckResponse(response, qemuBug);
    if e.Some? then Fail(e.value)
    else
      var fd := ToInt(response[1..], if qemuBug then 10 else 16);
      if fd.None? then Fail(BadNumber) else Ok(fd.value)
  }

  function ParsePread(response: seq<Byte>, qemuBug: bool): Result<(int, seq<Byte>)> {
    var e := CheckResponse(response, qemuBug);
    if e.Some? then Fail(e.value)
    else
      var (count, attachment) := Cut(response[1..], SEMICOLON);
      var n := ToInt(count, 16);
      if n.None? then Fail(BadNumber)
      else if attachment.None? then Fail(EndOfData)
      else
        var data := Unescape(attachment.value);
        if data.None? then Fail(EndOfData) else Ok((n.value, data.value))
  }

  function AsciiBytes(s: string): (r: seq<Byte>)
    requires forall i | 0 <= i < |s| :: s[i] < 128 as char
    ensures |r| == |s|
  {
    seq(|s|, i requires 0 <= i < |s| => s[i] as int)
  }

  /** The reply to a successful read, as the protocol prescribes it. */
  function PreadReply(data: seq<Byte>, reserved: set<Byte>): seq<Byte> {
    HexDigitsAscii(|data|);
    [LETTER_F] + AsciiBytes(Hex(|data|)) + [SEMICOLON] + Escape(data, reserved)
  }

  lemma HexDigitsAscii(n: nat)
    ensures forall i | 0 <= i < |Hex(n)| :: Hex(n)[i] < 128 as char
  {
    HexRead(n);
    forall i | 0 <= i < |Hex(n)| ensures Hex(n)[i] < 128 as char {
      assert IsDigit(Hex(n)[i], 16);
    }
  }

  lemma {:induction false} CutAt(a: seq<Byte>, sep: Byte, b: seq<Byte>)
    requires sep !in a
    ensures Cut(a + [sep] + b, sep) == (a, Some(b))
    decreases |a|
  {
    var s := a + [sep] + b;
    if a == [] {
      assert s[1..] == b;
    } else {
      assert s[0] == a[0] && s[1..] == a[1..] + [sep] + b;
      CutAt(a[1..], sep, b);
      assert [a[0]] + a[1..] == a;
    }
  }

  lemma CountRead(n: nat)
    ensures forall i | 0 <= i < |Hex(n)| :: Hex(n)[i] < 128 as char
    ensures var count := AsciiBytes(Hex(n)); ToInt(count, 16) == Some(n) && SEMICOLON !in count && COMMA !in count
  {
    HexDigitsAscii(n);
    HexRead(n);
    hide Digits;
    var count := AsciiBytes(Hex(n));
    assert Text(count).value == Hex(n);
    forall i | 0 <= i < |count| ensures count[i] != SEMICOLON && count[i] != COMMA {
      assert IsDigit(Hex(n)[i], 16);
    }
  }

  /** A well-formed reply is read as the bytes that were sent. */
  lemma ReplyRead(data: seq<Byte>, reserved: set<Byte>, qemuBug: bool)
    requires 125 in reserved
    ensures ParsePread(PreadReply(data, reserved), qemuBug) == Ok((|data|, data))
  {
    CountRead(|data|);
    EscapeRoundTrip(data, reserved);
    var count, escaped := AsciiBytes(Hex(|data|)), Escape(data, reserved);
    assert PreadReply(data, reserved) == [LETTER_F] + count + [SEMICOLON] + escaped;
    hide *;
    CountedReplyRead(count, escaped, |data|, data, qemuBug);
  }

  lemma CountedReplyRead(count: seq<Byte>, escaped: seq<Byte>, n: int, data: seq<Byte>, qemuBug: bool)
    requires SEMICOLON !in count && COMMA !in count && ToInt(count, 16) == Some(n) && Unescape(escaped) == Some(data)
    ensures ParsePread([LETTER_F] + count + [SEMICOLON] + escaped, qemuBug) == Ok((n, data))
  {
    hide Unescape;
    hide ToInt;
    hide Cut;
    var r := [LETTER_F] + count + [SEMICOLON] + escaped;
    CutAt([LETTER_F] + count, SEMICOLON, escaped);
    assert r[1..] == count + [SEMICOLON] + escaped;
    CutAt(count, SEMICOLON, escaped);
    assert CheckResponse(r, qemuBug).None?;
  }

  // ----- The read loop -----

  datatype Packet =
    | Open(name: string, flags: int, mode: int)
    | Pread(fd: int, size: int, offset: int)
    | Close(fd: int)

  /** A debugger stub: its answer may depend on everything it was ever sent. */
  datatype Stub = Stub(reply: seq<Packet> -> seq<Byte>, qemuBug: bool)

  /** How a generator ended: read to the end, dropped by its consumer, or by an exception. */
  datatype Ending = Finished | Abandoned | Raised(error: Error)

  datatype Outcome = Outcome(chunks: seq<seq<Byte>>, log: seq<Packet>, ending: Ending)

  function Chunk(data: seq<Byte>, rest: Outcome): Outcome {
    rest.(chunks := [data] + rest.chunks)
  }

  /** The while loop of vfile_readfile while its consumer asks for `budget` more chunks. */
  function ReadLoop(stub: Stub, log: seq<Packet>, fd: int, size: int, offset: int, budget: nat): Outcome
    decreases budget
  {
    if budget == 0 then Outcome([], log, Abandoned)
    else
      var sent := log + [Pread(fd, size, offset)];
      match ParsePread(stub.reply(sent), stub.qemuBug)
      case Fail(e) => Outcome([], sent, Raised(e))
      case Ok((n, data)) =>
        if n == 0 then Outcome([], sent, Finished)
        else Chunk(data, ReadLoop(stub, sent, fd, size, offset + n, budget - 1))
  }

  /** The finally clause: close, and let a failure to close replace the ending. */
  function Closing(stub: Stub, fd: int, o: Outcome): Outcome {
    var sent := o.log + [Close(fd)];
    var e := CheckResponse(stub.reply(sent), stub.qemuBug);
    Outcome(o.chunks, sent, if e.Some? then Raised(e.value) else o.ending)
  }

  /** vfile_readfile for a consumer that asks for at most `budget` chunks; a generator never asked never starts. */
  function ReadFile(stub: Stub, log: seq<Packet>, name: string, size: int, budget: nat): Outcome {
    if budget == 0 then Outcome([], log, Abandoned)
    else
      var sent := log + [Open(name, 0, 0)];
      match ParseOpen(stub.reply(sent), stub.qemuBug)
      case Fail(e) => Outcome([], sent, Raised(e))
      case Ok(fd) => Closing(stub, fd, ReadLoop(stub, sent, fd, size, 0, budget))
  }

  class Remote {
    const stub: Stub
    var log: seq<Packet>

    constructor (stub: Stub)
      ensures this.stub == stub && log == []
    {
      this.stub, log := stub, [];
    }

    method Send(p: Packet) returns (response: seq<Byte>)
      modifies this
      ensures log == old(log) + [p] && response == stub.reply(log)
    {
      log := log + [p];
      response := stub.reply(log);
    }

    method VfileOpen(name: string, flags: int, mode: int) returns (r: Result<int>)
      modifies this
      ensures log == old(log) + [Open(name, flags, mode)] && r == ParseOpen(stub.reply(log), stub.qemuBug)
    {
      var response := Send(Open(name, flags, mode));
      r := ParseOpen(response, stub.qemuBug);
    }

    method VfilePread(fd: int, size: int, offset: int) returns (r: Result<(int, seq<Byte>)>)
      modifies this
      ensures log == old(log) + [Pread(fd, size, offset)] && r == ParsePread(stub.reply(log), stub.qemuBug)
    {
      var response := Send(Pread(fd, size, offset));
      var failed := CheckResponse(response, stub.qemuBug);
      if failed.Some? {
        return Fail(failed.value);
      }
      var parts := Cut(response[1..], SEMICOLON);
      var bytesRead := ToInt(parts.0, 16);
      if bytesRead.None? {
        return Fail(BadNumber);
      }
      if parts.1.None? {
        return Fail(EndOfData);
      }
      var data := GdbMemtoxInverse(parts.1.value);
      r := if data.None? then Fail(EndOfData) else Ok((bytesRead.value, data.value));
    }

    method VfileClose(fd: int) returns (e: Option<Error>)
      modifies this
      ensures log == old(log) + [Close(fd)] && e == CheckResponse(stub.reply(log), stub.qemuBug)
    {
      var response := Send(Close(fd));
      e := CheckResponse(response, stub.qemuBug);
    }

    method VfileReadfile(name: string, chunkSize: int, budget: nat) returns (chunks: seq<seq<Byte>>, ending: Ending)
      modifies this
      ensures Outcome(chunks, log, ending) == ReadFile(stub, old(log), name, chunkSize, budget)
    {
      hide ReadLoop;
      hide ParsePread;
      hide ParseOpen;
      hide CheckResponse;
      chunks := [];
      if budget == 0 {
        return chunks, Abandoned;
      }
      var answer := VfileOpen(name, 0, 0);
      if answer.Fail? {
        return chunks, Raised(answer.error);
      }
      var fd := answer.value;
      var offset, left := 0, budget;
      ending := Abandoned;
      ghost var all := ReadLoop(stub, log, fd, chunkSize, 0, budget);
      assert chunks + all.chunks == all.chunks;
      while left > 0
        invariant ending == Abandoned
        invariant all == ChunksBefore(chunks, ReadLoop(stub, log, fd, chunkSize, offset, left))
        decreases left
      {
        ReadLoopStep(stub, log, fd, chunkSize, offset, left);
        var got := VfilePread(fd, chunkSize, offset);
        if got.Fail? {
          ending := Raised(got.error);
          break;
        }
        var (bytesRead, data) := got.value;
        if bytesRead == 0 {
          ending := Finished;
          break;
        }
        ChunkMore(chunks, data, ReadLoop(stub, log, fd, chunkSize, offset + bytesRead, left - 1));
        chunks := chunks + [data];
        offset := offset + bytesRead;
        left := left - 1;
      }
      ReadLoopEnd(stub, log, fd, chunkSize, offset);
      assert chunks + [] == chunks;
      assert all == Outcome(chunks, log, ending);
      var failed := VfileClose(fd);
      if failed.Some? {
        ending := Raised(failed.value);
      }
    }
  }

  function ChunksBefore(chunks: seq<seq<Byte>>, o: Outcome): Outcome {
    o.(chunks := chunks + o.chunks)
  }

  lemma ChunkMore(chunks: seq<seq<Byte>>, data: seq<Byte>, rest: Outcome)
    ensures ChunksBefore(chunks, Chunk(data, rest)) == ChunksBefore(chunks + [data], rest)
  {
    assert chunks + ([data] + rest.chunks) == (chunks + [data]) + rest.chunks;
  }

  lemma ReadLoopStep(stub: Stub, log: seq<Packet>, fd: int, size: int, offset: int, budget: nat)
    requires budget > 0
    ensures ReadLoop(stub, log, fd, size, offset, budget) ==
            var sent := log + [Pread(fd, size, offset)];
            match ParsePread(stub.reply(sent), stub.qemuBug)
            case Fail(e) => Outcome([], sent, Raised(e))
            case Ok((n, data)) =>
              if n == 0 then Outcome([], sent, Finished)
              else Chunk(data, ReadLoop(stub, sent, fd, size, offset + n, budget - 1))
  {
    hide ParsePread;
    hide Chunk;
  }

  lemma ReadLoopEnd(stub: Stub, log: seq<Packet>, fd: int, size: int, offset: int)
    ensures ReadLoop(stub, log, fd, size, offset, 0) == Outcome([], log, Abandoned)
  {
  }

  // ----- Closed once, whatever the stub answers -----

  predicate OnlyReads(packets: seq<Packet>, fd: int, size: int) {
    forall i | 0 <= i < |packets| :: packets[i].Pread? && packets[i].fd == fd && packets[i].size == size
  }

  /** The log grows by reads alone. */
  ghost predicate GrowsByReads(log: seq<Packet>, grown: seq<Packet>, fd: int, size: int) {
    log <= grown && OnlyReads(grown[|log|..], fd, size)
  }

  lemma {:induction false} LoopOnlyReads(stub: Stub, log: seq<Packet>, fd: int, size: int, offset: int, budget: nat)
    ensures GrowsByReads(log, ReadLoop(stub, log, fd, size, offset, budget).log, fd, size)
    decreases budget
  {
    hide *;
    if budget > 0 {
      ReadLoopStep(stub, log, fd, size, offset, budget);
      var sent := log + [Pread(fd, size, offset)];
      var r := ParsePread(stub.reply(sent), stub.qemuBug);
      if r.Ok? && r.value.0 != 0 {
        var rest := ReadLoop(stub, sent, fd, size, offset + r.value.0, budget - 1);
        LoopOnlyReads(stub, sent, fd, size, offset + r.value.0, budget - 1);
        ChunkLog(r.value.1, rest);
        GrowsMore(log, offset, rest.log, fd, size);
      } else {
        GrowsNot(sent, fd, size);
        GrowsMore(log, offset, sent, fd, size);
      }
    } else {
      ReadLoopEnd(stub, log, fd, size, offset);
      GrowsNot(log, fd, size);
    }
  }

  lemma ChunkLog(data: seq<Byte>, rest: Outcome)
    ensures Chunk(data, rest).log == rest.log
  {
  }

  lemma GrowsNot(log: seq<Packet>, fd: int, size: int)
    ensures GrowsByReads(log, log, fd, size)
  {
  }

  lemma GrowsMore(log: seq<Packet>, offset: int, grown: seq<Packet>, fd: int, size: int)
    requires GrowsByReads(log + [Pread(fd, size, offset)], grown, fd, size)
    ensures GrowsByReads(log, grown, fd, size)
  {
    ReadsAfter(grown, |log|, fd, size);
  }

  lemma ReadsAfter(log: seq<Packet>, n: nat, fd: int, size: int)
    requires n < |log| && log[n].Pread? && log[n].fd == fd && log[n].size == size
    requires OnlyReads(log[n + 1..], fd, size)
    ensures OnlyReads(log[n..], fd, size)
  {
    assert log[n..] == [log[n]] + log[n + 1..];
  }

  /**
    Whatever the stub answers and wherever the consumer stops: a file that was
    opened is read through its own descriptor only and closed exactly once, at
    the end; one that was not is never closed.
   */
  lemma ClosedOnce(stub: Stub, log: seq<Packet>, name: string, size: int, budget: nat)
    requires budget > 0
    ensures var o := ReadFile(stub, log, name, size, budget);
            var sent := log + [Open(name, 0, 0)];
            match ParseOpen(stub.reply(sent), stub.qemuBug)
            case Fail(e) => o.log == sent && o.ending == Raised(e) && o.chunks == []
            case Ok(fd) => exists between :: OnlyReads(between, fd, size) && o.log == sent + between + [Close(fd)]
  {
    var sent := log + [Open(name, 0, 0)];
    var answer := ParseOpen(stub.reply(sent), stub.qemuBug);
    if answer.Ok? {
      LoopOnlyReads(stub, sent, answer.value, size, 0, budget);
      var l := ReadLoop(stub, sent, answer.value, size, 0, budget);
      hide ReadLoop;
      hide ParseOpen;
      hide CheckResponse;
      assert l.log == sent + l.log[|sent|..];
    }
  }

  // ----- The whole file, from an honest stub -----

  /** What a stub may answer to a read of `size` bytes at `offset`: some of what is left, at least one byte if there is any. */
  ghost predicate Serves(response: seq<Byte>, file: seq<Byte>, size: int, offset: nat) {
    exists n: nat, reserved: set<Byte> ::
      ServesSome(response, file, size, offset, n, reserved)
  }

  ghost predicate ServesSome(response: seq<Byte>, file: seq<Byte>, size: int, offset: nat, n: nat, reserved: set<Byte>) {
    && offset + n <= |file| && n <= size && (n == 0 ==> offset == |file|)
    && 125 in reserved && response == PreadReply(file[offset..offset + n], reserved)
  }

  /**
    The reads a run may have sent when it is about to read at `offset`: from the
    start of the file on, each behind the one before, by at most what that asked for.
   */
  ghost predicate Forward(between: seq<Packet>, fd: int, size: int, offset: nat)
    decreases |between|
  {
    if between == [] then offset == 0
    else
      var last := between[|between| - 1];
      && last.Pread? && last.fd == fd && last.size == size
      && 0 <= last.offset < offset <= last.offset + size
      && Forward(between[..|between| - 1], fd, size, last.offset)
  }

  /** A stub that serves the file on descriptor `fd` to the run that begins after `sent`; what it does otherwise is its own. */
  ghost predicate Honest(stub: Stub, sent: seq<Packet>, fd: int, file: seq<Byte>, size: int) {
    forall between: seq<Packet>, offset: nat | Forward(between, fd, size, offset) && offset <= |file| ::
      Serves(stub.reply(sent + between + [Pread(fd, size, offset)]), file, size, offset)
  }

  function Flatten(chunks: seq<seq<Byte>>): seq<Byte> {
    if chunks == [] then [] else chunks[0] + Flatten(chunks[1..])
  }

  lemma FlattenChunk(data: seq<Byte>, o: Outcome)
    ensures Flatten(Chunk(data, o).chunks) == data + Flatten(o.chunks)
  {
    assert ([data] + o.chunks)[1..] == o.chunks;
  }

  /** Chunks that are never empty nor too long: the rest of the file, or as much of it as was asked for. */
  ghost predicate Reads(o: Outcome, rest: seq<Byte>, size: int, budget: nat) {
    && Flatten(o.chunks) <= rest
    && (forall i | 0 <= i < |o.chunks| :: 0 < |o.chunks[i]| <= size)
    && ((o.ending == Finished && Flatten(o.chunks) == rest) || (o.ending == Abandoned && |o.chunks| == budget))
  }

  lemma ReadsMore(data: seq<Byte>, o: Outcome, rest: seq<Byte>, size: int, budget: nat)
    requires Reads(o, rest, size, budget) && 0 < |data| <= size
    ensures Reads(Chunk(data, o), data + rest, size, budget + 1)
  {
    FlattenChunk(data, o);
  }

  /** A consumer that asks for more chunks than there are bytes reads to the end. */
  lemma ReadsAll(o: Outcome, rest: seq<Byte>, size: int, budget: nat)
    requires Reads(o, rest, size, budget) && budget > |rest|
    ensures o.ending == Finished && Flatten(o.chunks) == rest
  {
    FlattenLength(o.chunks);
  }

  lemma {:induction false} FlattenLength(chunks: seq<seq<Byte>>)
    requires forall i | 0 <= i < |chunks| :: 0 < |chunks[i]|
    ensures |Flatten(chunks)| >= |chunks|
    decreases |chunks|
  {
    if chunks != [] {
      FlattenLength(chunks[1..]);
    }
  }

  /** An honest stub's answer, as the reader understands it. */
  lemma HonestAnswer(stub: Stub, sent: seq<Packet>, between: seq<Packet>, fd: int, file: seq<Byte>, size: int, offset: nat) returns (n: nat)
    requires Honest(stub, sent, fd, file, size) && Forward(between, fd, size, offset) && offset <= |file|
    ensures offset + n <= |file| && n <= size && (n == 0 ==> offset == |file|)
    ensures ParsePread(stub.reply(sent + between + [Pread(fd, size, offset)]), stub.qemuBug) == Ok((n, file[offset..offset + n]))
  {
    hide ParsePread;
    hide PreadReply;
    var response := stub.reply(sent + between + [Pread(fd, size, offset)]);
    assert Serves(response, file, size, offset);
    var k: nat, reserved: set<Byte> :| ServesSome(response, file, size, offset, k, reserved);
    ReplyRead(file[offset..offset + k], reserved, stub.qemuBug);
    n := k;
  }

  lemma ForwardMore(between: seq<Packet>, fd: int, size: int, offset: nat, n: nat)
    requires Forward(between, fd, size, offset) && 0 < n <= size
    ensures Forward(between + [Pread(fd, size, offset)], fd, size, offset + n)
  {
    assert (between + [Pread(fd, size, offset)])[..|between|] == between;
  }

  /** The loop reads the rest of the file in at most one chunk per byte, or as many chunks as its consumer wants. */
  lemma {:induction false} LoopReadsAll(stub: Stub, sent: seq<Packet>, between: seq<Packet>, fd: int, file: seq<Byte>, size: int, offset: nat, budget: nat)
    requires Honest(stub, sent, fd, file, size) && Forward(between, fd, size, offset) && offset <= |file|
    ensures Reads(ReadLoop(stub, sent + between, fd, size, offset, budget), file[offset..], size, budget)
    decreases budget
  {
    hide *;
    if budget == 0 {
      ReadLoopEnd(stub, sent + between, fd, size, offset);
      ReadsNone(sent + between, file[offset..], size);
    } else {
      var n := HonestAnswer(stub, sent, between, fd, file, size, offset);
      var more, data := between + [Pread(fd, size, offset)], file[offset..offset + n];
      assert sent + between + [Pread(fd, size, offset)] == sent + more;
      NextRead(stub, sent + between, fd, size, offset, budget, n, data);
      if n > 0 {
        ForwardMore(between, fd, size, offset, n);
        LoopReadsAll(stub, sent, more, fd, file, size, offset + n, budget - 1);
        ReadsMore(data, ReadLoop(stub, sent + more, fd, size, offset + n, budget - 1), file[offset + n..], size, budget - 1);
        assert file[offset..] == data + file[offset + n..];
      } else {
        ReadsNothing(sent + more, size, budget);
        assert file[offset..] == [];
      }
    }
  }

  lemma NextRead(stub: Stub, log: seq<Packet>, fd: int, size: int, offset: int, budget: nat, n: int, data: seq<Byte>)
    requires budget > 0
    requires ParsePread(stub.reply(log + [Pread(fd, size, offset)]), stub.qemuBug) == Ok((n, data))
    ensures var sent := log + [Pread(fd, size, offset)];
            ReadLoop(stub, log, fd, size, offset, budget) ==
            if n == 0 then Outcome([], sent, Finished)
            else Chunk(data, ReadLoop(stub, sent, fd, size, offset + n, budget - 1))
  {
    hide *;
    ReadLoopStep(stub, log, fd, size, offset, budget);
  }

  lemma ReadsNothing(log: seq<Packet>, size: int, budget: nat)
    ensures Reads(Outcome([], log, Finished), [], size, budget)
  {
  }

  lemma ReadsNone(log: seq<Packet>, rest: seq<Byte>, size: int)
    ensures Reads(Outcome([], log, Abandoned), rest, size, 0)
  {
  }

  /**
    Every consumer gets a prefix of the file, in chunks that are never empty nor
    too long; one that reads to the end gets the whole file.
   */
  lemma WholeFile(stub: Stub, log: seq<Packet>, name: string, size: int, budget: nat, fd: int, file: seq<Byte>)
    requires ParseOpen(stub.reply(log + [Open(name, 0, 0)]), stub.qemuBug) == Ok(fd)
    requires Honest(stub, log + [Open(name, 0, 0)], fd, file, size)
    ensures var o := ReadFile(stub, log, name, size, budget);
            && Flatten(o.chunks) <= file
            && (forall i | 0 <= i < |o.chunks| :: 0 < |o.chunks[i]| <= size)
            && (budget > |file| ==> Flatten(o.chunks) == file)
            && (budget > |file| && CheckResponse(stub.reply(o.log), stub.qemuBug).None? ==> o.ending == Finished)
  {
    var sent := log + [Open(name, 0, 0)];
    LoopReadsAll(stub, sent, [], fd, file, size, 0, budget);
    hide ReadLoop;
    hide Honest;
    hide ParseOpen;
    hide CheckResponse;
    assert sent + [] == sent && file[0..] == file;
    if budget > |file| {
      ReadsAll(ReadLoop(stub, sent, fd, size, 0, budget), file, size, budget);
    }
    hide Flatten;
  }

  // ----- A stub that keeps track of what is open -----

  const SERVER_FD := 5

  /** "F5", "F0", "F-1,9" (EBADF) and "F-1,2" (ENOENT) */
  const OPENED: seq<Byte> := [70, 53]
  const CLOSED: seq<Byte> := [70, 48]
  const NOT_OPEN: seq<Byte> := [70, 45, 49, 44, 57]
  const NO_FILE: seq<Byte> := [70, 45, 49, 44, 50]

  /** What is open after a packet, if `was` was before. */
  function OpenThen(files: map<string, seq<Byte>>, was: Option<string>, p: Packet): Option<string> {
    match p
    case Open(name, _, _) => if name in files then Some(name) else was
    case Pread(_, _, _) => was
    case Close(fd) => if fd == SERVER_FD then None else was
  }

  /** The file open on the server's one descriptor. */
  function OpenName(files: map<string, seq<Byte>>, log: seq<Packet>): (r: Option<string>)
    ensures r.Some? ==> r.value in files
  {
    if log == [] then None else OpenThen(files, OpenName(files, log[..|log| - 1]), log[|log| - 1])
  }

  /** At most `cap` bytes of what is asked for and left. */
  function Served(file: seq<Byte>, size: int, offset: int, cap: nat): seq<Byte>
    requires 0 <= offset <= |file| && size >= 0
  {
    var n := if size < cap then size else cap;
    file[offset..if offset + n < |file| then offset + n else |file|]
  }

  function ServerReply(files: map<string, seq<Byte>>, cap: nat, before: seq<Packet>, p: Packet): seq<Byte> {
    match p
    case Open(name, _, _) => if name in files then OPENED else NO_FILE
    case Pread(fd, size, offset) =>
      var open := OpenName(files, before);
      if fd == SERVER_FD && open.Some? && 0 <= offset <= |files[open.value]| && size >= 0 then
        PreadReply(Served(files[open.value], size, offset, cap), {125})
      else NOT_OPEN
    case Close(fd) => if fd == SERVER_FD && OpenName(files, before).Some? then CLOSED else NOT_OPEN
  }

  /** A stub for these files with one descriptor, which answers reads and closes only while a file is open. */
  function FileServer(files: map<string, seq<Byte>>, cap: nat): Stub {
    Stub((log: seq<Packet>) => if log == [] then [] else ServerReply(files, cap, log[..|log| - 1], log[|log| - 1]), false)
  }

  lemma ServerAnswers(files: map<string, seq<Byte>>, cap: nat, before: seq<Packet>, p: Packet)
    ensures FileServer(files, cap).reply(before + [p]) == ServerReply(files, cap, before, p)
  {
    assert (before + [p])[..|before|] == before;
  }

  lemma OpenAfter(files: map<string, seq<Byte>>, before: seq<Packet>, p: Packet)
    ensures OpenName(files, before + [p]) == OpenThen(files, OpenName(files, before), p)
  {
    assert (before + [p])[..|before|] == before;
  }

  lemma {:induction false} StaysOpen(files: map<string, seq<Byte>>, sent: seq<Packet>, between: seq<Packet>, fd: int, size: int)
    requires OnlyReads(between, fd, size)
    ensures OpenName(files, sent + between) == OpenName(files, sent)
    decreases |between|
  {
    if between == [] {
      assert sent + between == sent;
    } else {
      var front, p := between[..|between| - 1], between[|between| - 1];
      StaysOpen(files, sent, front, fd, size);
      assert sent + between == sent + front + [p];
      OpenAfter(files, sent + front, p);
    }
  }

  lemma {:induction false} ForwardOnlyReads(between: seq<Packet>, fd: int, size: int, offset: nat)
    requires Forward(between, fd, size, offset)
    ensures OnlyReads(between, fd, size)
    decreases |between|
  {
    if between != [] {
      ForwardOnlyReads(between[..|between| - 1], fd, size, between[|between| - 1].offset);
    }
  }

  /** The server is honest to whoever opens one of its files, whatever was sent before. */
  lemma ServerHonest(files: map<string, seq<Byte>>, cap: nat, log: seq<Packet>, name: string, size: int)
    requires name in files && cap > 0 && size > 0
    ensures Honest(FileServer(files, cap), log + [Open(name, 0, 0)], SERVER_FD, files[name], size)
  {
    var stub, sent, file := FileServer(files, cap), log + [Open(name, 0, 0)], files[name];
    OpenAfter(files, log, Open(name, 0, 0));
    forall between: seq<Packet>, offset: nat | Forward(between, SERVER_FD, size, offset) && offset <= |file|
      ensures Serves(stub.reply(sent + between + [Pread(SERVER_FD, size, offset)]), file, size, offset)
    {
      ForwardOnlyReads(between, SERVER_FD, size, offset);
      StaysOpen(files, sent, between, SERVER_FD, size);
      ServerAnswers(files, cap, sent + between, Pread(SERVER_FD, size, offset));
      ServedServes(file, size, offset, cap);
    }
  }

  lemma ServedServes(file: seq<Byte>, size: int, offset: nat, cap: nat)
    requires offset <= |file| && size > 0 && cap > 0
    ensures Serves(PreadReply(Served(file, size, offset, cap), {125}), file, size, offset)
  {
    hide PreadReply;
    var n := |Served(file, size, offset, cap)|;
    assert Served(file, size, offset, cap) == file[offset..offset + n];
    assert ServesSome(PreadReply(Served(file, size, offset, cap), {125}), file, size, offset, n, {125});
  }

  /** What the reader makes of the server's short replies. */
  lemma ServerReplies()
    ensures ParseOpen(OPENED, false) == Ok(SERVER_FD) && CheckResponse(CLOSED, false) == None
    ensures CheckResponse(NOT_OPEN, false) == Some(OsError(9)) && CheckResponse(NO_FILE, false) == Some(OsError(2))
  {
    Numerals();
    hide ToInt;
    assert OPENED[1..] == [53];
    ShortReply(53);
    ShortReply(48);
    ErrorReply(57, 9);
    ErrorReply(50, 2);
  }

  lemma ShortReply(digit: Byte)
    requires digit != SEMICOLON && digit != COMMA
    ensures CheckResponse([LETTER_F, digit], false) == None
  {
    CutNothing([LETTER_F, digit], SEMICOLON);
  }

  lemma ErrorReply(digit: Byte, errno: int)
    requires digit != SEMICOLON && ToInt([digit], 16) == Some(errno) && ToInt([45, 49], 10) == Some(-1)
    ensures CheckResponse([LETTER_F, 45, 49, COMMA, digit], false) == Some(OsError(errno))
  {
    hide ToInt;
    var r: seq<Byte> := [LETTER_F, 45, 49, COMMA, digit];
    CutNothing(r, SEMICOLON);
    CutAt([45, 49], COMMA, [digit]);
    assert r[1..] == [45, 49] + [COMMA] + [digit];
  }

  lemma {:induction false} CutNothing(s: seq<Byte>, sep: Byte)
    requires sep !in s
    ensures Cut(s, sep) == (s, None)
    decreases |s|
  {
    if s != [] {
      CutNothing(s[1..], sep);
      assert s == [s[0]] + s[1..];
    }
  }

  lemma Numerals()
    ensures ToInt([45, 49], 10) == Some(-1)
    ensures ToInt([53], 16) == Some(5) && ToInt([57], 16) == Some(9) && ToInt([50], 16) == Some(2)
  {
    assert Text([45, 49]).value == "-1";
    NotStripped("-1");
    assert "-1"[1..] == "1";
    OneDigit(53, 5);
    OneDigit(57, 9);
    OneDigit(50, 2);
  }

  lemma OneDigit(c: Byte, n: nat)
    requires 48 <= c <= 57 && n == c - 48
    ensures ToInt([c], 16) == Some(n)
  {
    var s := [c as char];
    assert Text([c]).value == s;
    NotStripped(s);
  }

  /** A read or a close while nothing is open is refused with EBADF. */
  lemma ServerRefuses(files: map<string, seq<Byte>>, cap: nat, log: seq<Packet>, fd: int, size: int, offset: int)
    requires OpenName(files, log).None?
    ensures var stub := FileServer(files, cap);
            && ParsePread(stub.reply(log + [Pread(fd, size, offset)]), stub.qemuBug) == Fail(OsError(9))
            && CheckResponse(stub.reply(log + [Close(fd)]), stub.qemuBug) == Some(OsError(9))
  {
    ServerReplies();
    hide CheckResponse;
    ServerAnswers(files, cap, log, Pread(fd, size, offset));
    ServerAnswers(files, cap, log, Close(fd));
  }

  /**
    Against this stub every file is read as it is, after any history, and is
    closed afterwards; a file that does not exist raises ENOENT.
   */
  lemma ServerReads(files: map<string, seq<Byte>>, cap: nat, log: seq<Packet>, name: string, size: int, budget: nat)
    requires cap > 0 && size > 0
    ensures var o := ReadFile(FileServer(files, cap), log, name, size, budget);
            && (name in files && budget > |files[name]| ==>
                  o.ending == Finished && Flatten(o.chunks) == files[name] && OpenName(files, o.log).None?)
            && (name !in files && budget > 0 ==> o == Outcome([], log + [Open(name, 0, 0)], Raised(OsError(2))))
  {
    hide *;
    var stub, sent := FileServer(files, cap), log + [Open(name, 0, 0)];
    ServerReplies();
    ServerOpens(files, cap, log, name);
    if name in files && budget > |files[name]| {
      ServerHonest(files, cap, log, name, size);
      WholeFile(stub, log, name, size, budget, SERVER_FD, files[name]);
      OpenedRun(stub, log, name, size, budget, SERVER_FD);
      ServerCloses(files, cap, sent, name, ReadLoop(stub, sent, SERVER_FD, size, 0, budget).log, size);
    } else if name !in files && budget > 0 {
      RefusedRun(stub, log, name, size, budget, OsError(2));
    }
  }

  lemma ServerOpens(files: map<string, seq<Byte>>, cap: nat, log: seq<Packet>, name: string)
    ensures var stub, sent := FileServer(files, cap), log + [Open(name, 0, 0)];
            && !stub.qemuBug
            && (name in files ==> OpenName(files, sent) == Some(name) && ParseOpen(stub.reply(sent), false) == Ok(SERVER_FD))
            && (name !in files ==> ParseOpen(stub.reply(sent), false) == Fail(OsError(2)))
  {
    ServerReplies();
    ServerAnswers(files, cap, log, Open(name, 0, 0));
    OpenAfter(files, log, Open(name, 0, 0));
    hide CheckResponse;
    hide ToInt;
  }

  lemma ServerCloses(files: map<string, seq<Byte>>, cap: nat, sent: seq<Packet>, name: string, log: seq<Packet>, size: int)
    requires OpenName(files, sent) == Some(name) && GrowsByReads(sent, log, SERVER_FD, size)
    ensures var closed := log + [Close(SERVER_FD)];
            OpenName(files, closed).None? && CheckResponse(FileServer(files, cap).reply(closed), false).None?
  {
    StaysOpen(files, sent, log[|sent|..], SERVER_FD, size);
    assert log == sent + log[|sent|..];
    ServerAnswers(files, cap, log, Close(SERVER_FD));
    OpenAfter(files, log, Close(SERVER_FD));
    ServerReplies();
    hide CheckResponse;
  }

  lemma OpenedRun(stub: Stub, log: seq<Packet>, name: string, size: int, budget: nat, fd: int)
    requires budget > 0 && ParseOpen(stub.reply(log + [Open(name, 0, 0)]), stub.qemuBug) == Ok(fd)
    ensures var sent := log + [Open(name, 0, 0)];
            var l := ReadLoop(stub, sent, fd, size, 0, budget).log;
            GrowsByReads(sent, l, fd, size) && ReadFile(stub, log, name, size, budget).log == l + [Close(fd)]
  {
    LoopOnlyReads(stub, log + [Open(name, 0, 0)], fd, size, 0, budget);
    hide ReadLoop;
    hide ParseOpen;
  }

  lemma RefusedRun(stub: Stub, log: seq<Packet>, name: string, size: int, budget: nat, error: Error)
    requires budget > 0 && ParseOpen(stub.reply(log + [Open(name, 0, 0)]), stub.qemuBug) == Fail(error)
    ensures ReadFile(stub, log, name, size, budget) == Outcome([], log + [Open(name, 0, 0)], Raised(error))
  {
    hide ParseOpen;
  }
}
