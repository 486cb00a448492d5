/**
 * Incremental decoder for one request frame of the Redis serialization
 * protocol (RESP): an array of bulk strings,
 *   *<n>\r\n  then n times  $<len>\r\n<len bytes>\r\n
 * It decodes at most one frame from the start of a buffer and reports
 * whether more bytes are needed, how many bytes the frame took, and the
 * decoded strings, so that a caller can slice the frame off and decode the
 * next one from the rest (pipelining).
 */
module Resp {
  import opened Wrappers
  import opened StdLib

  /** RespParseStatus. */
  datatype RespParseStatus = NeedMore | Ok | Error

  /** The three outputs of parse_resp_array: its status, `consumed` and `out`. */
  datatype ParseResult = ParseResult(status: RespParseStatus, consumed: nat, out: seq<string>)

  /** Outcome of reading the header `*<n>\r\n`: the count and where the first element starts. */
  datatype Header = HeaderNeedMore | HeaderError | HeaderOk(count: nat, cursor: nat)

  function ParseHeader(input: string): (h: Header)
    ensures input == [] ==> h == HeaderNeedMore
    ensures input != [] && input[0] != '*' ==> h == HeaderError
    ensures h.HeaderOk? ==> 4 <= h.cursor <= |input| && input[h.cursor - 2..h.cursor] == "\r\n"
  {
    if input == [] then HeaderNeedMore
    else if input[0] != '*' then HeaderError
    else match FindCrlf(input, 0)
      case None => HeaderNeedMore
      case Some(crlf) =>
        if crlf <= 1 then HeaderError
        else match WholeNumeral(input[1..crlf])
          case None => HeaderError
          case Some(n) => if n < 0 then HeaderError else HeaderOk(n, crlf + 2)
  }

  /** Outcome of reading one element `$<len>\r\n<bytes>\r\n`: its bytes and where the next begins. */
  datatype Bulk = BulkNeedMore | BulkError | BulkOk(arg: string, next: nat)

  function ParseBulk(input: string, cursor: nat): (b: Bulk)
    ensures b.BulkOk? ==> cursor + |b.arg| + 6 <= b.next <= |input|
  {
    if cursor >= |input| then BulkNeedMore
    else if input[cursor] != '$' then BulkError
    else match FindCrlf(input, cursor + 1)
      case None => BulkNeedMore
      case Some(crlf2) =>
        match WholeNumeral(input[cursor + 1..crlf2])
        case None => BulkError
        case Some(len) =>
          if len < 0 then BulkError
          else
            var dataStart := crlf2 + 2;
            if |input| < dataStart + len + 2 then BulkNeedMore
            else if input[dataStart + len] != '\r' || input[dataStart + len + 1] != '\n' then BulkError
            else BulkOk(input[dataStart..dataStart + len], dataStart + len + 2)
  }

  /**
   * The remaining `remaining` elements from cursor on, after the elements
   * acc already decoded. As in the source, a failure keeps what was decoded
   * before it in `out` but reports nothing consumed.
   */
  function ParseElements(input: string, cursor: nat, remaining: nat, acc: seq<string>): (r: ParseResult)
    requires cursor <= |input|
    decreases remaining
  {
    if remaining == 0 then ParseResult(Ok, cursor, acc)
    else match ParseBulk(input, cursor)
      case BulkNeedMore => ParseResult(NeedMore, 0, acc)
      case BulkError => ParseResult(Error, 0, acc)
      case BulkOk(arg, next) =>
        ParseElements(input, next, remaining - 1, acc + [arg])
  }

  /** parse_resp_array as a function of the buffer. */
  function Parse(input: string): (r: ParseResult)
    ensures input == [] ==> r.status == NeedMore
    ensures input != [] && input[0] != '*' ==> r.status == Error
    ensures r.status != Ok ==> r.consumed == 0
    ensures !ParseHeader(input).HeaderOk? ==> r.status != Ok && r.out == []
    ensures ParseHeader(input).HeaderOk? ==> (r.status == Ok <==> |r.out| == ParseHeader(input).count)
    ensures r.status == Ok ==> 4 <= r.consumed <= |input|
  {
    match ParseHeader(input)
    case HeaderNeedMore => ParseResult(NeedMore, 0, [])
    case HeaderError => ParseResult(Error, 0, [])
    case HeaderOk(n, cursor) =>
      ElementsOutcome(input, cursor, n, []);
      ParseElements(input, cursor, n, [])
  }

  /**
   * The elements loop either reads all of them, ending within the buffer,
   * or stops early with nothing consumed and fewer strings than asked for.
   */
  lemma {:induction false} ElementsOutcome(input: string, cursor: nat, remaining: nat, acc: seq<string>)
    requires cursor <= |input|
    ensures var r := ParseElements(input, cursor, remaining, acc);
      r.status == Ok ==> cursor <= r.consumed <= |input| && |r.out| == |acc| + remaining
    ensures var r := ParseElements(input, cursor, remaining, acc);
      r.status != Ok ==> r.consumed == 0 && |r.out| < |acc| + remaining
    decreases remaining
  {
    if remaining > 0 {
      match ParseBulk(input, cursor)
      case BulkOk(arg, next) => ElementsOutcome(input, next, remaining - 1, acc + [arg]);
      case _ =>
    }
  }

  /** parse_resp_array: the header, then the cursor loop over the buffer. */
  method ParseRespArray(input: string) returns (status: RespParseStatus, consumed: nat, out: seq<string>)
    ensures ParseResult(status, consumed, out) == Parse(input)
  {
    consumed := 0;
    out := [];
    var header := ReadHeader(input);
    if header.HeaderNeedMore? {
      return NeedMore, consumed, out;
    } else if header.HeaderError? {
      return Error, consumed, out;
    }
    var n := header.count;
    var cursor: nat := header.cursor;
    ghost var expected := Parse(input);
    var i := 0;
    ghost var remaining: nat := n;
    while i < n
      invariant 0 <= i <= n && remaining == n - i
      invariant cursor <= |input|
      invariant ParseElements(input, cursor, remaining, out) == expected
    {
      var element := ReadBulk(input, cursor);
      match element
      case BulkNeedMore =>
        return NeedMore, consumed, out;
      case BulkError =>
        return Error, consumed, out;
      case BulkOk(arg, next) =>
        ElementsStep(input, cursor, remaining, out, arg, next);
        out := out + [arg];
        cursor := next;
        i := i + 1;
        remaining := remaining - 1;
    }
    consumed := cursor;
    return Ok, consumed, out;
  }

  /** The header checks of parse_resp_array: `*`, the first "\r\n", a non-empty count that stoll reads whole. */
  method ReadHeader(input: string) returns (header: Header)
    ensures header == ParseHeader(input)
  {
    if |input| == 0 {
      return HeaderNeedMore;
    }
    if input[0] != '*' {
      return HeaderError;
    }
    var crlf := FindCrlf(input, 0);
    if crlf.None? {
      return HeaderNeedMore;
    }
    if crlf.value <= 1 {
      return HeaderError;
    }
    var lenStr := input[1..crlf.value];
    var parsed := StoLL(lenStr);
    if parsed.None? {
      assert WholeNumeral(lenStr).None?;
      return HeaderError;
    }
    var n := parsed.value.value;
    if parsed.value.end != |lenStr| || n < 0 {
      assert WholeNumeral(lenStr) != Some(n) || n < 0;
      return HeaderError;
    }
    assert WholeNumeral(lenStr) == Some(n);
    return HeaderOk(n, crlf.value + 2);
  }

  /** One pass of the element loop of parse_resp_array: reads `$<len>\r\n<bytes>\r\n` at cursor. */
  method ReadBulk(input: string, cursor: nat) returns (element: Bulk)
    ensures element == ParseBulk(input, cursor)
  {
    if cursor >= |input| {
      return BulkNeedMore;
    }
    if input[cursor] != '$' {
      return BulkError;
    }
    var found := FindCrlf(input, cursor + 1);
    if found.None? {
      return BulkNeedMore;
    }
    var crlf2 := found.value;
    var lenStr := input[cursor + 1..crlf2];
    var parsed := StoLL(lenStr);
    if parsed.None? {
      assert WholeNumeral(lenStr).None?;
      return BulkError;
    }
    var len := parsed.value.value;
    if parsed.value.end != |lenStr| || len < 0 {
      assert WholeNumeral(lenStr) != Some(len) || len < 0;
      return BulkError;
    }
    assert WholeNumeral(lenStr) == Some(len);
    var dataStart := crlf2 + 2;
    var need := dataStart + len + 2;
    if |input| < need {
      return BulkNeedMore;
    }
    var dataEnd := dataStart + len;
    if input[dataEnd] != '\r' || input[dataEnd + 1] != '\n' {
      return BulkError;
    }
    return BulkOk(input[dataStart..dataEnd], dataEnd + 2);
  }

  /** An element every check of the loop body passes: its bytes, and the cursor past it. */
  lemma BulkAccepted(input: string, cursor: nat, crlf2: nat, len: nat)
    requires cursor < |input| && input[cursor] == '$'
    requires FindCrlf(input, cursor + 1) == Some(crlf2)
    requires WholeNumeral(input[cursor + 1..crlf2]) == Some(len)
    requires crlf2 + 2 + len + 2 <= |input|
    requires input[crlf2 + 2 + len] == '\r' && input[crlf2 + 2 + len + 1] == '\n'
    ensures ParseBulk(input, cursor) == BulkOk(input[crlf2 + 2..crlf2 + 2 + len], crlf2 + 2 + len + 2)
  {
  }

  /** An element whose length field is complete but whose bytes are not all there yet. */
  lemma BulkShort(input: string, cursor: nat, crlf2: nat, len: nat)
    requires cursor < |input| && input[cursor] == '$'
    requires FindCrlf(input, cursor + 1) == Some(crlf2)
    requires WholeNumeral(input[cursor + 1..crlf2]) == Some(len)
    requires |input| < crlf2 + 2 + len + 2
    ensures ParseBulk(input, cursor) == BulkNeedMore
  {
  }

  /** ParseElements unrolled once, after an element read completely. */
  lemma ElementsStep(input: string, cursor: nat, remaining: nat, acc: seq<string>, arg: string, next: nat)
    requires cursor <= |input| && remaining > 0 && ParseBulk(input, cursor) == BulkOk(arg, next)
    ensures ParseElements(input, cursor, remaining, acc) == ParseElements(input, next, remaining - 1, acc + [arg])
  {
  }

  /** From cursor on, the elements args are read one after the other, and the last ends at end. */
  predicate BulksAt(input: string, cursor: nat, args: seq<string>, end: nat)
    decreases |args|
  {
    if args == [] then cursor == end
    else
      var b := ParseBulk(input, cursor);
      b.BulkOk? && b.arg == args[0] && BulksAt(input, b.next, args[1..], end)
  }

  /** One more element in front of a chain. */
  lemma BulksCons(input: string, cursor: nat, args: seq<string>, next: nat, end: nat)
    requires args != [] && ParseBulk(input, cursor) == BulkOk(args[0], next)
    requires BulksAt(input, next, args[1..], end)
    ensures BulksAt(input, cursor, args, end)
  {
  }

  /** Elements read one after the other: the decoder takes them all and goes on after the last. */
  lemma {:induction false} ElementsChain(input: string, cursor: nat, args: seq<string>, end: nat,
                                        remaining: nat, more: nat, acc: seq<string>, total: seq<string>)
    requires cursor <= |input| && BulksAt(input, cursor, args, end)
    requires remaining == |args| + more && total == acc + args
    ensures end <= |input|
    ensures ParseElements(input, cursor, remaining, acc) == ParseElements(input, end, more, total)
    decreases |args|
  {
    if args == [] {
      assert cursor == end && total == acc;
    } else {
      var b := ParseBulk(input, cursor);
      assert b == BulkOk(args[0], b.next) && BulksAt(input, b.next, args[1..], end);
      ElementsStep(input, cursor, remaining, acc, args[0], b.next);
      assert total == acc + [args[0]] + args[1..] by {
        assert [args[0]] + args[1..] == args;
      }
      ElementsChain(input, b.next, args[1..], end, remaining - 1, more, acc + [args[0]], total);
    }
  }

  /** Elements read one after the other, then one that is incomplete: the frame needs more bytes. */
  lemma ElementsThenShort(input: string, cursor: nat, args: seq<string>, end: nat, remaining: nat)
    requires cursor <= |input| && BulksAt(input, cursor, args, end)
    requires remaining > |args| && ParseBulk(input, end) == BulkNeedMore
    ensures ParseElements(input, cursor, remaining, []).status == NeedMore
  {
    ElementsChain(input, cursor, args, end, remaining, remaining - |args|, [], args);
  }

  /** An element that fails its checks right after a good header makes the whole frame an Error. */
  lemma FirstElementError(input: string, n: nat, cursor: nat)
    requires ParseHeader(input) == HeaderOk(n, cursor) && n > 0
    requires ParseBulk(input, cursor) == BulkError
    ensures Parse(input) == ParseResult(Error, 0, [])
  {
  }

  /** `*0\r\n` is a complete frame with no strings. */
  lemma EmptyFrame()
    ensures Parse("*0\r\n") == ParseResult(Ok, 4, [])
  {
    var input := "*0\r\n";
    assert FindCrlf(input, 0) == Some(2);
    assert input[1..2] == "0";
    assert StoLL("0") == Some(Numeral(0, 1));
  }

  /** An empty count field is an Error, while a count not yet ended by "\r\n" asks for more. */
  lemma HeaderExamples()
    ensures Parse("*\r\n").status == Error
    ensures Parse("*abc").status == NeedMore
  {
    assert FindCrlf("*\r\n", 0) == Some(1);
    assert FindCrlf("*abc", 2) == None;
  }

  /** Counts that stoll rejects, reads only in part, or reads as negative are Errors. */
  lemma BadCountExamples()
    ensures Parse("*x\r\n").status == Error
    ensures Parse("*1x\r\n").status == Error
    ensures Parse("*-1\r\n").status == Error
  {
    assert FindCrlf("*x\r\n", 0) == Some(2);
    assert "*x\r\n"[1..2] == "x";
    assert StoLL("x") == None;
    assert FindCrlf("*1x\r\n", 0) == Some(3);
    assert "*1x\r\n"[1..3] == "1x";
    assert StoLL("1x") == Some(Numeral(1, 1));
    assert FindCrlf("*-1\r\n", 0) == Some(3);
    assert "*-1\r\n"[1..3] == "-1";
    assert StoLL("-1") == Some(Numeral(-1, 2));
  }

  /** A missing `$`, a bad length and bytes not followed by "\r\n" are Errors. */
  lemma BadElementExamples()
    ensures Parse("*1\r\nx").status == Error
    ensures Parse("*1\r\n$-1\r\n").status == Error
    ensures Parse("*1\r\n$1\r\nabc").status == Error
  {
    OneHeader("*1\r\nx");
    OneHeader("*1\r\n$-1\r\n");
    var s := "*1\r\n$-1\r\n";
    assert FindCrlf(s, 5) == Some(7);
    assert s[5..7] == "-1";
    assert StoLL("-1") == Some(Numeral(-1, 2));
    OneHeader("*1\r\n$1\r\nabc");
    var u := "*1\r\n$1\r\nabc";
    assert FindCrlf(u, 5) == Some(6);
    assert u[5..6] == "1";
    assert StoLL("1") == Some(Numeral(1, 1));
  }

  /** The count and length fields are read by stoll, so leading blanks and a '+' are accepted. */
  lemma LenientNumeralExample()
    ensures Parse("* 1\r\n$+1\r\na\r\n") == ParseResult(Ok, 13, ["a"])
  {
    var s := "* 1\r\n$+1\r\na\r\n";
    assert FindCrlf(s, 0) == Some(3);
    assert s[1..3] == " 1";
    assert StoLL(" 1") == Some(Numeral(1, 2));
    assert FindCrlf(s, 6) == Some(8);
    assert s[6..8] == "+1";
    assert StoLL("+1") == Some(Numeral(1, 2));
    assert s[10..11] == "a";
  }

  /** The header `*1\r\n` at the start of s. */
  lemma OneHeader(s: string)
    requires |s| > 4 && s[..4] == "*1\r\n"
    ensures ParseHeader(s) == HeaderOk(1, 4)
  {
    assert s[0] == s[..4][0] == '*' && s[1] == s[..4][1] == '1' && s[2] == s[..4][2] == '\r' && s[3] == s[..4][3] == '\n';
    assert FindCrlf(s, 2) == Some(2);
    assert FindCrlf(s, 1) == Some(2);
    assert FindCrlf(s, 0) == Some(2);
    assert s[1..2] == "1";
    assert StoLL("1") == Some(Numeral(1, 1));
  }
}
