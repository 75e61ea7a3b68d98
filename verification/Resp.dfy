// The RESP2 wire format as the Redis connection prints commands and parses replies.
module Resp {
  import opened Basics

  type Bytes = seq<byte>

  const CR: byte := 13
  const LF: byte := 10
  const CRLF: Bytes := [CR, LF]
  const DOLLAR: byte := 36
  const STAR: byte := 42
  const PLUS: byte := 43
  const MINUS: byte := 45
  const COLON: byte := 58
  const ZERO: byte := 48

  const INT64_LIMIT: int := 0x8000_0000_0000_0000

  // A Go int64 after overflow.
  function Wrap(n: int): (r: int)
    ensures -INT64_LIMIT <= r < INT64_LIMIT
    ensures -INT64_LIMIT <= n < INT64_LIMIT ==> r == n
  {
    (n + INT64_LIMIT) % (2 * INT64_LIMIT) - INT64_LIMIT
  }

  // ---------- printing ----------

  function DigitByte(d: int): (b: byte)
    ensures 0 <= d < 10 ==> b == ZERO + d
  {
    if 0 <= d < 10 then ZERO + d else ZERO
  }

  function Dec(n: nat): (s: Bytes)
    ensures s != [] && forall i :: 0 <= i < |s| ==> ZERO <= s[i] < ZERO + 10
  {
    Decimal(n, DigitByte)
  }

  function LenLine(prefix: byte, n: nat): Bytes { [prefix] + Dec(n) + CRLF }

  function BulkBytes(arg: Bytes): Bytes { LenLine(DOLLAR, |arg|) + arg + CRLF }

  function BulksBytes(args: seq<Bytes>): Bytes
  {
    if args == [] then [] else BulkBytes(args[0]) + BulksBytes(args[1..])
  }

  // A command name or argument: bytes or a string, an integer, a truth value, nil, or anything else with the text that
  // the formatting of floating point numbers, fmt.Fprint or its own RedisArg makes of it.
  datatype Arg = Raw(data: Bytes) | Number(n: int) | Flag(b: bool) | Absent | Printed(text: Bytes)

  // A Go int64, or a length that is a Go int.
  predicate Fits(arg: Arg)
  {
    match arg
    case Raw(data) => |data| < INT64_LIMIT
    case Number(n) => -INT64_LIMIT <= n < INT64_LIMIT
    case Printed(text) => |text| < INT64_LIMIT
    case _ => true
  }

  // The bytes an argument is sent as.
  function Text(arg: Arg): Bytes
  {
    match arg
    case Raw(data) => data
    case Number(n) => if n < 0 then [MINUS] + Dec(-n) else Dec(n)
    case Flag(b) => [if b then ZERO + 1 else ZERO]
    case Absent => []
    case Printed(text) => text
  }

  function Texts(args: seq<Arg>): (r: seq<Bytes>)
    ensures |r| == |args| && forall i :: 0 <= i < |r| ==> r[i] == Text(args[i])
  {
    seq(|args|, i requires 0 <= i < |args| => Text(args[i]))
  }

  // What writeCommand sends for a command name and its arguments.
  function CommandBytes(args: seq<Bytes>): Bytes
  {
    LenLine(STAR, |args|) + BulksBytes(args)
  }

  function Pow10(k: nat): nat { if k == 0 then 1 else 10 * Pow10(k - 1) }

  lemma {:induction false} DecLength(n: nat, k: nat)
    requires k >= 1 && n < Pow10(k)
    ensures |Dec(n)| <= k
    decreases k
  {
    if n >= 10 {
      assert k > 1;
      DecLength(n / 10, k - 1);
    }
  }

  // A 64-bit length has at most 19 digits.
  lemma DecFits(n: nat)
    requires n < INT64_LIMIT
    ensures |Dec(n)| <= 19
  {
    assert Pow10(4) == 10000;
    assert Pow10(8) == 100000000;
    assert Pow10(12) == 1000000000000;
    assert Pow10(16) == 10000000000000000;
    assert Pow10(19) == 10000000000000000000;
    DecLength(n, 19);
  }

  lemma DecLimit(n: nat)
    requires n <= INT64_LIMIT
    ensures |Dec(n)| <= 20
  {
    if n == INT64_LIMIT {
      DecFits(n / 10);
    } else {
      DecFits(n);
    }
  }

  // writeLen fills its 32-byte scratch backwards and never leaves it.
  method WriteLen(scratch: array<byte>, prefix: byte, n0: nat) returns (out: Bytes)
    requires scratch.Length == 32 && n0 < INT64_LIMIT
    modifies scratch
    ensures out == LenLine(prefix, n0)
  {
    DecFits(n0);
    scratch[31] := LF;
    scratch[30] := CR;
    var i, n := 29, n0;
    while true
      invariant 0 <= n && 10 <= i <= 29
      invariant i + |Dec(n0)| - |Dec(n)| == 29
      invariant Dec(n0) == Dec(n) + scratch[i + 1..30]
      invariant scratch[30..] == CRLF
      decreases n
    {
      ghost var before := scratch[i + 1..30];
      scratch[i] := ZERO + n % 10;
      assert scratch[i..30] == [ZERO + n % 10] + before;
      i := i - 1;
      ghost var m := n;
      n := n / 10;
      if n == 0 {
        break;
      }
      assert Dec(m) == Dec(n) + [ZERO + m % 10];
    }
    scratch[i] := prefix;
    assert scratch[i + 1..30] == Dec(n0);
    out := scratch[i..];
    assert out == [prefix] + scratch[i + 1..30] + scratch[30..];
  }

  // writeString and writeBytes.
  method WriteBulk(scratch: array<byte>, data: Bytes) returns (out: Bytes)
    requires scratch.Length == 32 && |data| < INT64_LIMIT
    modifies scratch
    ensures out == BulkBytes(data)
  {
    var line := WriteLen(scratch, DOLLAR, |data|);
    out := line + data + CRLF;
  }

  // ---------- parsing ----------

  datatype Error = EndOfStream | BadTerminator | ShortLine | MalformedLength | MalformedInteger | IllegalBytes
                 | BadBulk | BufferTooSmall | UnexpectedLine

  datatype Reply =
    | Nil
    | Status(text: Bytes)
    | ErrorReply(text: Bytes)
    | Integer(n: int)
    | Bulk(data: Bytes)
    | Stored(count: nat, data: Bytes)      // bulk string read into the caller's buffer
    | Array(replies: seq<Reply>)

  datatype Parsed<T> = Got(value: T, rest: Bytes) | Fail(error: Error)

  // Index of the first line feed.
  function FindLF(s: Bytes): (i: int)
    ensures -1 <= i < |s|
    ensures i >= 0 ==> s[i] == LF && LF !in s[..i]
    ensures i == -1 ==> LF !in s
  {
    if s == [] then -1
    else if s[0] == LF then 0
    else
      var i := FindLF(s[1..]);
      if i == -1 then -1
      else
        assert s[..i + 1] == [s[0]] + s[1..][..i];
        i + 1
  }

  function ReadLine(s: Bytes): (r: Parsed<Bytes>)
    ensures r.Got? ==> |r.rest| + 2 <= |s|
  {
    var i := FindLF(s);
    if i == -1 then Fail(EndOfStream)
    else if i < 1 || s[i - 1] != CR then Fail(BadTerminator)
    else Got(s[..i - 1], s[i + 1..])
  }

  predicate IsDigit(b: byte) { ZERO <= b < ZERO + 10 }

  // The accumulator of parseLen and parseInt after all bytes of p, in wrapping arithmetic.
  function Accumulate(p: Bytes): int
  {
    if p == [] then 0
    else Wrap(Wrap(10 * Accumulate(p[..|p| - 1])) + (p[|p| - 1] - ZERO))
  }

  predicate AllDigits(p: Bytes) { forall i :: 0 <= i < |p| ==> IsDigit(p[i]) }

  function ParseLen(p: Bytes): Parsed<int>
  {
    if p == [] then Fail(MalformedLength)
    else if p == [MINUS, ZERO + 1] then Got(-1, [])
    else if !AllDigits(p) then Fail(IllegalBytes)
    else Got(Accumulate(p), [])
  }

  function ParseInt(p: Bytes): Parsed<int>
  {
    if p == [] || p == [MINUS] then Fail(MalformedInteger)
    else
      var digits := if p[0] == MINUS then p[1..] else p;
      if !AllDigits(digits) then Fail(IllegalBytes)
      else Got(if p[0] == MINUS then Wrap(-Accumulate(digits)) else Accumulate(digits), [])
  }

  // The loop of parseLen; the error of the first bad byte.
  method ParseLenLoop(p: Bytes) returns (n: int, error: Option<Error>)
    ensures match ParseLen(p)
      case Got(v, _) => error == None && n == v
      case Fail(e) => error == Some(e) && n == -1
  {
    if |p| == 0 {
      return -1, Some(MalformedLength);
    }
    if p[0] == MINUS && |p| == 2 && p[1] == ZERO + 1 {
      assert p == [MINUS, ZERO + 1];
      return -1, None;
    }
    n := 0;
    for i := 0 to |p|
      invariant AllDigits(p[..i]) && n == Accumulate(p[..i])
    {
      n := Wrap(10 * n);
      if p[i] < ZERO || p[i] > ZERO + 9 {
        return -1, Some(IllegalBytes);
      }
      assert p[..i + 1][..i] == p[..i];
      n := Wrap(n + (p[i] - ZERO));
    }
    assert p[..|p|] == p;
    error := None;
  }

  // io.ReadFull of n bytes, then an empty line.
  function ReadBulk(s: Bytes, n: nat): (r: Parsed<Bytes>)
    ensures r.Got? ==> |r.rest| < |s|
  {
    if |s| < n then Fail(EndOfStream)
    else match ReadLine(s[n..])
      case Fail(e) => Fail(e)
      case Got(line, rest) => if line != [] then Fail(BadBulk) else Got(s[..n], rest)
  }

  // readReply. capacity is the length of the caller's read buffer, if one is set.
  function ReadReply(s: Bytes, capacity: Option<nat>): (r: Parsed<Reply>)
    ensures r.Got? ==> |r.rest| < |s|
    decreases |s|, 0
  {
    match ReadLine(s)
    case Fail(e) => Fail(e)
    case Got(line, rest) =>
      if line == [] then Fail(ShortLine)
      else if line[0] == PLUS then Got(Status(line[1..]), rest)
      else if line[0] == MINUS then Got(ErrorReply(line[1..]), rest)
      else if line[0] == COLON then
        match ParseInt(line[1..]) { case Fail(e) => Fail(e) case Got(n, _) => Got(Integer(n), rest) }
      else if line[0] == DOLLAR then
        match ParseLen(line[1..]) {
          case Fail(e) => Fail(e)
          case Got(n, _) =>
            if n < 0 then Got(Nil, rest)
            else if capacity.Some? && capacity.value < n then Fail(BufferTooSmall)
            else match ReadBulk(rest, n) {
              case Fail(e) => Fail(e)
              case Got(data, rest') => Got(if capacity.Some? then Stored(n, data) else Bulk(data), rest')
            }
        }
      else if line[0] == STAR then
        match ParseLen(line[1..]) {
          case Fail(e) => Fail(e)
          case Got(n, _) =>
            if n < 0 then Got(Nil, rest)
            else match ReadReplies(rest, n, capacity) {
              case Fail(e) => Fail(e)
              case Got(replies, rest') => Got(Array(replies), rest')
            }
        }
      else Fail(UnexpectedLine)
  }

  function ReadReplies(s: Bytes, n: nat, capacity: Option<nat>): (r: Parsed<seq<Reply>>)
    ensures r.Got? ==> |r.rest| <= |s| && |r.value| == n
    decreases |s|, 1
  {
    if n == 0 then Got([], s)
    else match ReadReply(s, capacity)
      case Fail(e) => Fail(e)
      case Got(reply, rest) =>
        match ReadReplies(rest, n - 1, capacity)
        case Fail(e) => Fail(e)
        case Got(replies, rest') => Got([reply] + replies, rest')
  }

  // ---------- round trip ----------

  lemma {:induction false} FindLFAfter(line: Bytes, s: Bytes)
    requires LF !in line
    ensures FindLF(line + [LF] + s) == |line|
    decreases |line|
  {
    var t := line + [LF] + s;
    if line != [] {
      assert line[0] in line;
      assert t[1..] == line[1..] + [LF] + s;
      FindLFAfter(line[1..], s);
    }
  }

  lemma ReadLineOf(line: Bytes, s: Bytes)
    requires LF !in line
    ensures ReadLine(line + CRLF + s) == Got(line, s)
  {
    FindLFAfter(line + [CR], s);
    var t := line + CRLF + s;
    assert t == (line + [CR]) + [LF] + s;
    assert FindLF(t) == |line| + 1;
    assert t[|line|] == CR && t[..|line|] == line && t[|line| + 2..] == s;
  }

  lemma {:induction false} AccumulateDec(n: nat)
    requires n <= INT64_LIMIT
    ensures Accumulate(Dec(n)) == Wrap(n)
    decreases n
  {
    var p := Dec(n);
    if n < 10 {
      assert p[..0] == [];
    } else {
      AccumulateDec(n / 10);
      assert p[..|p| - 1] == Dec(n / 10);
    }
  }

  lemma WrapNegated(n: int)
    requires -INT64_LIMIT <= n < 0
    ensures Wrap(-Wrap(-n)) == n
  {
  }

  // parseInt undoes the printing of every 64-bit integer, the least one included.
  lemma ParseIntOf(n: int)
    requires -INT64_LIMIT <= n < INT64_LIMIT
    ensures ParseInt(Text(Number(n))) == Got(n, [])
  {
    hide Accumulate, Dec, Wrap;
    if n < 0 {
      AccumulateDec(-n);
      WrapNegated(n);
      assert Text(Number(n))[1..] == Dec(-n);
    } else {
      AccumulateDec(n);
      assert Wrap(n) == n;
      assert Dec(n)[0] != MINUS;
    }
  }

  // parseLen undoes writeLen.
  lemma ParseLenOf(n: nat)
    requires n < INT64_LIMIT
    ensures ParseLen(Dec(n)) == Got(n, [])
  {
    AccumulateDec(n);
    assert Dec(n)[0] != MINUS;
  }

  lemma LenLineRead(prefix: byte, n: nat, s: Bytes)
    requires n < INT64_LIMIT && prefix != LF
    ensures ReadLine(LenLine(prefix, n) + s) == Got([prefix] + Dec(n), s)
    ensures ParseLen(([prefix] + Dec(n))[1..]) == Got(n, [])
  {
    ParseLenOf(n);
    assert LF !in Dec(n);
    ReadLineOf([prefix] + Dec(n), s);
    assert LenLine(prefix, n) + s == ([prefix] + Dec(n)) + CRLF + s;
    assert ([prefix] + Dec(n))[1..] == Dec(n);
  }

  lemma BulkRoundTrip(arg: Bytes, s: Bytes)
    requires |arg| < INT64_LIMIT
    ensures ReadReply(BulkBytes(arg) + s, None) == Got(Bulk(arg), s)
  {
    hide FindLF, Dec, ParseLen, ReadLine;
    LenLineRead(DOLLAR, |arg|, arg + CRLF + s);
    assert BulkBytes(arg) + s == LenLine(DOLLAR, |arg|) + (arg + CRLF + s);
    var rest := arg + CRLF + s;
    assert rest[|arg|..] == [] + CRLF + s;
    ReadLineOf([], s);
    assert rest[..|arg|] == arg;
  }

  function Bulks(args: seq<Bytes>): (r: seq<Reply>)
    ensures |r| == |args| && forall i :: 0 <= i < |args| ==> r[i] == Bulk(args[i])
  {
    seq(|args|, i requires 0 <= i < |args| => Bulk(args[i]))
  }

  lemma {:induction false} BulksRoundTrip(args: seq<Bytes>, s: Bytes)
    requires forall i :: 0 <= i < |args| ==> |args[i]| < INT64_LIMIT
    ensures ReadReplies(BulksBytes(args) + s, |args|, None) == Got(Bulks(args), s)
    decreases |args|
  {
    hide ReadReply, BulkBytes;
    if args == [] {
      assert BulksBytes(args) + s == s;
    } else {
      var rest := BulksBytes(args[1..]) + s;
      assert BulksBytes(args) + s == BulkBytes(args[0]) + rest;
      BulkRoundTrip(args[0], rest);
      BulksRoundTrip(args[1..], s);
      assert Bulks(args) == [Bulk(args[0])] + Bulks(args[1..]);
    }
  }

  // Reading back a printed command gives its arguments, whatever bytes they hold, and leaves exactly what follows.
  lemma CommandRoundTrip(args: seq<Bytes>, s: Bytes)
    requires |args| < INT64_LIMIT && forall i :: 0 <= i < |args| ==> |args[i]| < INT64_LIMIT
    ensures ReadReply(CommandBytes(args) + s, None) == Got(Array(Bulks(args)), s)
  {
    hide FindLF, Dec, ParseLen, ReadLine, ReadReplies, BulksBytes;
    var rest := BulksBytes(args) + s;
    LenLineRead(STAR, |args|, rest);
    assert CommandBytes(args) + s == LenLine(STAR, |args|) + rest;
    BulksRoundTrip(args, s);
  }

  // A line that starts with '+', '-' or ':' is a status, an error or an integer, also with a read buffer set; a length
  // of -1 stands for nil.
  lemma LineReplies(line: Bytes, s: Bytes, capacity: Option<nat>)
    requires LF !in line && line != []
    ensures var r := ReadReply(line + CRLF + s, capacity);
      && (line[0] == PLUS ==> r == Got(Status(line[1..]), s))
      && (line[0] == MINUS ==> r == Got(ErrorReply(line[1..]), s))
      && (line[0] == COLON ==>
            forall n :: -INT64_LIMIT <= n < INT64_LIMIT && line[1..] == Text(Number(n)) ==> r == Got(Integer(n), s))
      && (line[0] == DOLLAR || line[0] == STAR ==> line[1..] == [MINUS, ZERO + 1] ==> r == Got(Nil, s))
  {
    hide Text, ReadLine, ParseInt, ReadBulk, ReadReplies;
    ReadLineOf(line, s);
    if line[0] == COLON {
      forall n | -INT64_LIMIT <= n < INT64_LIMIT && line[1..] == Text(Number(n))
        ensures ParseInt(line[1..]) == Got(n, [])
      {
        ParseIntOf(n);
      }
    }
  }

  // A bulk string read into a buffer is stored and counted; it fails exactly when the buffer is too small.
  lemma BulkIntoBuffer(arg: Bytes, s: Bytes, capacity: nat)
    requires |arg| < INT64_LIMIT
    ensures ReadReply(BulkBytes(arg) + s, Some(capacity)) ==
      if |arg| <= capacity then Got(Stored(|arg|, arg), s) else Fail(BufferTooSmall)
  {
    hide FindLF, Dec, ParseLen, ReadLine;
    LenLineRead(DOLLAR, |arg|, arg + CRLF + s);
    assert BulkBytes(arg) + s == LenLine(DOLLAR, |arg|) + (arg + CRLF + s);
    var rest := arg + CRLF + s;
    assert rest[|arg|..] == [] + CRLF + s;
    ReadLineOf([], s);
    assert rest[..|arg|] == arg;
  }
  // ---------- commands ----------

  // What a reader of the command makes of an argument.
  predicate Carries(reply: Reply, arg: Arg)
  {
    && reply.Bulk?
    && match arg
       case Raw(data) => reply.data == data
       case Number(n) => ParseInt(reply.data) == Got(n, [])
       case Flag(b) => reply.data == (if b then [ZERO + 1] else [ZERO])
       case Absent => reply.data == []
       case Printed(text) => reply.data == text
  }

  ghost predicate ReadsAsArg(out: Bytes, arg: Arg)
  {
    forall s: Bytes :: var r := ReadReply(out + s, None); r.Got? && r.rest == s && Carries(r.value, arg)
  }

  ghost predicate ReadsAsCommand(out: Bytes, args: seq<Arg>)
  {
    forall s: Bytes :: var r := ReadReply(out + s, None);
      && r.Got? && r.rest == s && r.value.Array? && |r.value.replies| == |args|
      && forall i :: 0 <= i < |args| ==> Carries(r.value.replies[i], args[i])
  }

  lemma TextFits(arg: Arg)
    requires Fits(arg)
    ensures |Text(arg)| < INT64_LIMIT && Carries(Bulk(Text(arg)), arg)
  {
    hide Dec, ParseInt;
    if arg.Number? {
      DecLimit(if arg.n < 0 then -arg.n else arg.n);
      ParseIntOf(arg.n);
    }
  }

  lemma ArgRoundTrip(arg: Arg)
    requires Fits(arg)
    ensures ReadsAsArg(BulkBytes(Text(arg)), arg)
  {
    hide Text, BulkBytes, ReadReply, Carries;
    TextFits(arg);
    forall s: Bytes
      ensures ReadReply(BulkBytes(Text(arg)) + s, None) == Got(Bulk(Text(arg)), s)
    {
      BulkRoundTrip(Text(arg), s);
    }
  }

  lemma ArgsRoundTrip(args: seq<Arg>)
    requires |args| < INT64_LIMIT && forall i :: 0 <= i < |args| ==> Fits(args[i])
    ensures ReadsAsCommand(CommandBytes(Texts(args)), args)
  {
    hide Text, CommandBytes, ReadReply, Carries, Fits;
    var texts := Texts(args);
    forall i | 0 <= i < |args|
      ensures |texts[i]| < INT64_LIMIT && Carries(Bulk(texts[i]), args[i])
    {
      TextFits(args[i]);
    }
    forall s: Bytes
      ensures ReadReply(CommandBytes(texts) + s, None) == Got(Array(Bulks(texts)), s)
    {
      CommandRoundTrip(texts, s);
    }
  }

  // writeArg: every kind of argument in its own form.
  method WriteArg(scratch: array<byte>, arg: Arg) returns (out: Bytes)
    requires scratch.Length == 32 && Fits(arg)
    modifies scratch
    ensures out == BulkBytes(Text(arg)) && ReadsAsArg(out, arg)
  {
    hide BulkBytes, ReadsAsArg, Dec;
    ArgRoundTrip(arg);
    TextFits(arg);
    match arg
    case Raw(data) => out := WriteBulk(scratch, data);
    case Number(n) => out := WriteBulk(scratch, if n < 0 then [MINUS] + Dec(-n) else Dec(n));
    case Flag(b) =>
      if b {
        out := WriteBulk(scratch, [ZERO + 1]);
      } else {
        out := WriteBulk(scratch, [ZERO]);
      }
    case Absent => out := WriteBulk(scratch, []);
    case Printed(text) => out := WriteBulk(scratch, text);
  }

  // writeCommand: the count, then the name and every argument as a bulk string.
  method WriteCommand(scratch: array<byte>, args: seq<Arg>) returns (out: Bytes)
    requires scratch.Length == 32 && |args| < INT64_LIMIT
    requires forall i :: 0 <= i < |args| ==> Fits(args[i])
    modifies scratch
    ensures out == CommandBytes(Texts(args)) && ReadsAsCommand(out, args)
  {
    hide Text, BulkBytes, Fits, ReadsAsArg, ReadsAsCommand;
    ArgsRoundTrip(args);
    out := WriteLen(scratch, STAR, |args|);
    ghost var texts := Texts(args);
    assert texts[0..] == texts;
    for i := 0 to |args|
      invariant out + BulksBytes(texts[i..]) == CommandBytes(texts)
    {
      var bulk := WriteArg(scratch, args[i]);
      assert texts[i..][0] == texts[i] && texts[i..][1..] == texts[i + 1..];
      assert out + (bulk + BulksBytes(texts[i + 1..])) == (out + bulk) + BulksBytes(texts[i + 1..]);
      out := out + bulk;
    }
    assert texts[|args|..] == [];
    assert out + [] == out;
  }
}
