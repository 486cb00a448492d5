/**
 * The canonical encoding of a request as a RESP array of bulk strings, and
 * what the decoder of module Resp makes of it: the whole frame back, with
 * `consumed` its exact length whatever follows it (round trip, pipelining),
 * and NeedMore on every strict prefix of it.
 */
module RespEncoding {
  import opened Wrappers
  import opened StdLib
  import opened Resp

  /** `$<len>\r\n<bytes>\r\n` */
  function EncodeBulk(arg: string): string {
    "$" + NatToString(|arg|) + "\r\n" + arg + "\r\n"
  }

  function EncodeBulks(args: seq<string>): string {
    if args == [] then [] else EncodeBulk(args[0]) + EncodeBulks(args[1..])
  }

  /** `*<n>\r\n` followed by the n bulk strings. */
  function Encode(args: seq<string>): string {
    "*" + NatToString(|args|) + "\r\n" + EncodeBulks(args)
  }

  /** Every count in the frame fits the decoder's 64-bit numerals. */
  predicate Encodable(args: seq<string>) {
    |args| <= MaxInt64 && forall i :: 0 <= i < |args| ==> |args[i]| <= MaxInt64
  }

  /**
   * Decoding a frame followed by any bytes gives back exactly the strings
   * it carries, including empty ones and ones that hold "\r\n", and
   * consumes exactly the frame.
   */
  lemma RoundTrip(args: seq<string>, suffix: string)
    requires Encodable(args)
    ensures Parse(Encode(args) + suffix) == ParseResult(Ok, |Encode(args)|, args)
  {
    var input := Encode(args) + suffix;
    var digits := NatToString(|args|);
    var cursor := 1 + |digits| + 2;
    assert input == "*" + digits + "\r\n" + (EncodeBulks(args) + suffix);
    CanonicalNumeral(|args|);
    HeaderOfEncoding(input, digits, |args|, EncodeBulks(args) + suffix);
    assert input[cursor..] == EncodeBulks(args) + suffix;
    ElementsOfEncoding(input, cursor, args, suffix);
  }

  /** Two frames sent back to back are decoded one after the other. */
  lemma Pipelining(first: seq<string>, second: seq<string>)
    requires Encodable(first) && Encodable(second)
    ensures var input := Encode(first) + Encode(second);
      var r := Parse(input);
      r == ParseResult(Ok, |Encode(first)|, first) &&
      Parse(input[r.consumed..]) == ParseResult(Ok, |Encode(second)|, second)
  {
    var input := Encode(first) + Encode(second);
    RoundTrip(first, Encode(second));
    assert input[|Encode(first)|..] == Encode(second) + [];
    RoundTrip(second, []);
  }

  /** A frame cut short anywhere asks for more bytes. */
  lemma PrefixNeedsMore(args: seq<string>, m: nat)
    requires Encodable(args) && m < |Encode(args)|
    ensures Parse(Encode(args)[..m]).status == NeedMore
  {
    var frame := Encode(args);
    var input := frame[..m];
    var digits := NatToString(|args|);
    var cursor := 1 + |digits| + 2;
    assert frame == "*" + digits + "\r\n" + EncodeBulks(args);
    if m == 0 {
    } else if m < cursor {
      CanonicalNumeral(|args|);
      HeaderPrefix(input, digits);
    } else {
      var bulks := EncodeBulks(args);
      var cut, missing := bulks[..m - cursor], bulks[m - cursor..];
      assert input == "*" + digits + "\r\n" + cut;
      CanonicalNumeral(|args|);
      HeaderOfEncoding(input, digits, |args|, cut);
      DropFront(input, 0, "*" + digits + "\r\n", cut);
      TakeDrop(bulks, m - cursor);
      ElementsPrefix(input, cursor, args, missing);
    }
  }

  /** A field with no '\r' in it: the first "\r\n" after it is the one that ends it. */
  predicate NoCr(field: string) {
    forall k :: 0 <= k < |field| ==> field[k] != '\r'
  }

  /** std::to_string's numerals are read back whole, and hold no '\r'. */
  lemma CanonicalNumeral(n: nat)
    requires n <= MaxInt64
    ensures WholeNumeral(NatToString(n)) == Some(n)
    ensures NoCr(NatToString(n))
  {
    StoLLOfIntToString(n, []);
    assert IntToString(n) + [] == NatToString(n);
  }

  /** `*<digits>\r\n`, with digits a numeral for count, is read as the header of count elements. */
  lemma HeaderOfEncoding(input: string, digits: string, count: nat, rest: string)
    requires |digits| > 0 && NoCr(digits) && WholeNumeral(digits) == Some(count)
    requires input == "*" + digits + "\r\n" + rest
    ensures ParseHeader(input) == HeaderOk(count, 1 + |digits| + 2)
    ensures Parse(input) == ParseElements(input, 1 + |digits| + 2, count, [])
  {
    assert input[1..] == digits + "\r\n" + rest;
    FieldThenCrlf(input, 1, digits, rest);
  }

  /** A field without '\r' and then "\r\n": where find stops, and the field it delimits. */
  lemma FieldThenCrlf(s: string, from: nat, field: string, after: string)
    requires from <= |s| && s[from..] == field + "\r\n" + after
    requires NoCr(field)
    ensures from + |field| + 2 <= |s|
    ensures FindCrlf(s, from) == Some(from + |field|)
    ensures s[from..from + |field|] == field
  {
    var t := s[from..];
    var end := from + |field|;
    forall k | from <= k < end
      ensures s[k] != '\r'
    {
      assert s[k] == t[k - from] == field[k - from];
    }
    assert s[end] == t[|field|] == '\r';
    assert s[end + 1] == t[|field| + 1] == '\n';
    FindCrlfAfterField(s, from, end);
    assert s[from..end] == t[..|field|];
  }

  /** The first "\r\n" at or after from, when no '\r' comes before it. */
  lemma {:induction false} FindCrlfAfterField(s: string, from: nat, end: nat)
    requires from <= end && CrlfAt(s, end)
    requires forall k :: from <= k < end ==> s[k] != '\r'
    ensures FindCrlf(s, from) == Some(end)
    decreases end - from
  {
    if from < end {
      assert !CrlfAt(s, from);
      FindCrlfAfterField(s, from + 1, end);
    }
  }

  /** A header without its complete "\r\n" is incomplete. */
  lemma HeaderPrefix(input: string, digits: string)
    requires NoCr(digits) && 0 < |input| < 1 + |digits| + 2
    requires input == ("*" + digits + "\r\n")[..|input|]
    ensures Parse(input).status == NeedMore
  {
    var header := "*" + digits + "\r\n";
    assert input[0] == header[0] == '*';
    forall k | 0 <= k < 1 + |digits|
      ensures header[k] != '\r'
    {
      if k > 0 {
        assert header[k] == digits[k - 1];
      }
    }
    NoCrlfInPrefix(input, 0, header, 1 + |digits|);
  }

  /**
   * A prefix of s that ends before s's "\r\n" at end is complete, where no
   * '\r' comes before end, has no "\r\n" at or after from.
   */
  lemma NoCrlfInPrefix(input: string, from: nat, s: string, end: nat)
    requires from < end + 1 < |s| && |input| < end + 2 && |input| <= |s|
    requires input == s[..|input|]
    requires forall k :: from <= k < end ==> s[k] != '\r'
    ensures FindCrlf(input, from) == None
  {
    forall k | from <= k
      ensures !CrlfAt(input, k)
    {
      if k < end && k < |input| {
        assert input[k] == s[k];
      }
    }
  }

  /** `$<digits>\r\n<arg>\r\n`, with digits a numeral for |arg|, followed by anything. */
  lemma BulkOfParts(input: string, cursor: nat, digits: string, arg: string, rest: string)
    requires cursor <= |input| && NoCr(digits) && WholeNumeral(digits) == Some(|arg|)
    requires input[cursor..] == "$" + digits + "\r\n" + arg + "\r\n" + rest
    ensures ParseBulk(input, cursor) == BulkOk(arg, cursor + |digits| + |arg| + 5)
  {
    var n := |digits|;
    var dataStart := cursor + 1 + n + 2;
    var data := arg + "\r\n" + rest;
    assert input[cursor] == '$' && input[cursor..] == "$" + (digits + "\r\n" + data);
    DropFront(input, cursor, "$", digits + "\r\n" + data);
    FieldThenCrlf(input, cursor + 1, digits, data);
    DropFront(input, cursor + 1, digits + "\r\n", data);
    FieldThenTrailer(input, dataStart, arg, rest);
    BulkAccepted(input, cursor, cursor + 1 + n, |arg|);
  }

  /** Bytes followed by "\r\n": the slice and the trailer the decoder checks. */
  lemma FieldThenTrailer(s: string, from: nat, bytes: string, after: string)
    requires from <= |s| && s[from..] == bytes + "\r\n" + after
    ensures from + |bytes| + 2 <= |s|
    ensures s[from..from + |bytes|] == bytes
    ensures s[from + |bytes|] == '\r' && s[from + |bytes| + 1] == '\n'
  {
    var t := s[from..];
    assert s[from..from + |bytes|] == t[..|bytes|];
    assert s[from + |bytes|] == t[|bytes|];
    assert s[from + |bytes| + 1] == t[|bytes| + 1];
  }

  /** A bulk string followed by anything is read back and skipped whole. */
  lemma BulkOfEncoding(input: string, cursor: nat, arg: string, rest: string)
    requires cursor <= |input| && |arg| <= MaxInt64
    requires input[cursor..] == EncodeBulk(arg) + rest
    ensures ParseBulk(input, cursor) == BulkOk(arg, cursor + |EncodeBulk(arg)|)
  {
    var digits := NatToString(|arg|);
    CanonicalNumeral(|arg|);
    BulkOfParts(input, cursor, digits, arg, rest);
  }

  /** The bulk strings of a frame, followed by anything, are read one after the other. */
  lemma {:induction false} BulksOfEncoding(input: string, cursor: nat, args: seq<string>, rest: string, end: nat)
    requires cursor <= |input| && end == cursor + |EncodeBulks(args)|
    requires forall i :: 0 <= i < |args| ==> |args[i]| <= MaxInt64
    requires input[cursor..] == EncodeBulks(args) + rest
    ensures BulksAt(input, cursor, args, end)
    decreases |args|
  {
    if args != [] {
      var bulk := EncodeBulk(args[0]);
      var next := cursor + |bulk|;
      var tail := EncodeBulks(args[1..]) + rest;
      DropFront(input, cursor, bulk, tail);
      assert end == next + |EncodeBulks(args[1..])|;
      assert forall i :: 0 <= i < |args[1..]| ==> |args[1..][i]| <= MaxInt64;
      assert input[next..] == EncodeBulks(args[1..]) + rest;
      BulksOfEncoding(input, next, args[1..], rest, end);
      BulkThenChain(input, cursor, args, tail, next, end);
    }
  }

  /** A bulk string in front of a chain of elements extends the chain. */
  lemma BulkThenChain(input: string, cursor: nat, args: seq<string>, tail: string, next: nat, end: nat)
    requires cursor <= |input| && args != [] && |args[0]| <= MaxInt64
    requires input[cursor..] == EncodeBulk(args[0]) + tail && next == cursor + |EncodeBulk(args[0])|
    requires BulksAt(input, next, args[1..], end)
    ensures BulksAt(input, cursor, args, end)
  {
    BulkOfEncoding(input, cursor, args[0], tail);
    BulksCons(input, cursor, args, next, end);
  }

  /** The bulk strings of a frame, followed by anything, are all read back. */
  lemma ElementsOfEncoding(input: string, cursor: nat, args: seq<string>, rest: string)
    requires cursor <= |input|
    requires forall i :: 0 <= i < |args| ==> |args[i]| <= MaxInt64
    requires input[cursor..] == EncodeBulks(args) + rest
    ensures ParseElements(input, cursor, |args|, []) == ParseResult(Ok, cursor + |EncodeBulks(args)|, args)
  {
    var end := cursor + |EncodeBulks(args)|;
    BulksOfEncoding(input, cursor, args, rest, end);
    ElementsChain(input, cursor, args, end, |args|, 0, [], args);
  }

  /** A bulk string cut short asks for more bytes. */
  lemma BulkPrefix(input: string, cursor: nat, arg: string, j: nat)
    requires cursor <= |input| && |arg| <= MaxInt64
    requires j < |EncodeBulk(arg)| && input[cursor..] == EncodeBulk(arg)[..j]
    ensures ParseBulk(input, cursor) == BulkNeedMore
  {
    CanonicalNumeral(|arg|);
    BulkPrefixOfParts(input, cursor, NatToString(|arg|), arg);
  }

  /** `$<digits>\r\n<arg>\r\n` cut short, with digits a numeral for |arg|. */
  lemma BulkPrefixOfParts(input: string, cursor: nat, digits: string, arg: string)
    requires cursor <= |input| && NoCr(digits) && WholeNumeral(digits) == Some(|arg|)
    requires |input| - cursor < |"$" + digits + "\r\n" + arg + "\r\n"|
    requires input[cursor..] == ("$" + digits + "\r\n" + arg + "\r\n")[..|input| - cursor]
    ensures ParseBulk(input, cursor) == BulkNeedMore
  {
    if cursor < |input| {
      var bulk := "$" + digits + "\r\n" + arg + "\r\n";
      var t := input[cursor..];
      var n := |digits|;
      assert input[cursor] == t[0] == bulk[0] == '$';
      if |input| < cursor + 1 + n + 2 {
        forall k | 1 <= k < 1 + n
          ensures bulk[k] != '\r'
        {
          assert bulk[k] == digits[k - 1];
        }
        NoCrlfInPrefix(t, 1, bulk, 1 + n);
        FindCrlfShift(input, cursor, 1);
      } else {
        var w := t[1 + n + 2..];
        assert t == "$" + (digits + "\r\n" + w) by {
          assert t[..1 + n + 2] == bulk[..1 + n + 2] == "$" + digits + "\r\n";
        }
        DropFront(input, cursor, "$", digits + "\r\n" + w);
        FieldThenCrlf(input, cursor + 1, digits, w);
        BulkShort(input, cursor, cursor + 1 + n, |arg|);
      }
    }
  }

  /** find on a suffix of s is find on s, shifted. */
  lemma {:induction false} FindCrlfShift(s: string, offset: nat, from: nat)
    requires offset <= |s|
    ensures FindCrlf(s, offset + from) == (match FindCrlf(s[offset..], from)
      case None => None
      case Some(i) => Some(offset + i))
    decreases |s| - offset - from
  {
    var t := s[offset..];
    if offset + from + 1 < |s| {
      assert CrlfAt(s, offset + from) == CrlfAt(t, from);
      FindCrlfShift(s, offset, from + 1);
    }
  }

  /** The bulk strings of a frame cut short, by a non-empty `missing`, ask for more bytes. */
  lemma ElementsPrefix(input: string, cursor: nat, args: seq<string>, missing: string)
    requires cursor <= |input|
    requires forall i :: 0 <= i < |args| ==> |args[i]| <= MaxInt64
    requires missing != [] && input[cursor..] + missing == EncodeBulks(args)
    ensures ParseElements(input, cursor, |args|, []).status == NeedMore
  {
    var k, j := SplitBulks(args, input[cursor..], missing);
    var done := EncodeBulks(args[..k]);
    var partial := EncodeBulk(args[k])[..j];
    var resume := cursor + |done|;
    DropFront(input, cursor, done, partial);
    BulksOfEncoding(input, cursor, args[..k], partial, resume);
    BulkPrefix(input, resume, args[k], j);
    ElementsThenShort(input, cursor, args[..k], resume, |args|);
  }

  /** A strict prefix of the bulk strings: some whole ones, then part of the next. */
  lemma SplitBulks(args: seq<string>, t: string, missing: string) returns (k: nat, j: nat)
    requires missing != [] && t + missing == EncodeBulks(args)
    ensures k < |args| && j < |EncodeBulk(args[k])|
    ensures t == EncodeBulks(args[..k]) + EncodeBulk(args[k])[..j]
  {
    EncodeBulksJoin(args);
    k, j := SplitJoin(EncodeEach(args), t, missing);
    EncodeBulksJoin(args[..k]);
    assert EncodeEach(args)[..k] == EncodeEach(args[..k]);
  }

  /** The bulk strings of the elements, each on its own. */
  function EncodeEach(args: seq<string>): (parts: seq<string>)
    ensures |parts| == |args| && forall i :: 0 <= i < |args| ==> parts[i] == EncodeBulk(args[i])
  {
    seq(|args|, i requires 0 <= i < |args| => EncodeBulk(args[i]))
  }

  /** The bulk strings of a frame are the encodings of its elements, one after the other. */
  lemma {:induction false} EncodeBulksJoin(args: seq<string>)
    ensures EncodeBulks(args) == Join(EncodeEach(args))
    decreases |args|
  {
    if args != [] {
      assert EncodeEach(args)[1..] == EncodeEach(args[1..]);
      EncodeBulksJoin(args[1..]);
    }
  }

  /** A strict prefix of pieces joined: some whole pieces, then part of the next. */
  lemma {:induction false} SplitJoin(parts: seq<string>, t: string, missing: string) returns (k: nat, j: nat)
    requires missing != [] && t + missing == Join(parts)
    ensures k < |parts| && j < |parts[k]|
    ensures t == Join(parts[..k]) + parts[k][..j]
    decreases |parts|
  {
    var first := parts[0];
    assert t + missing == first + Join(parts[1..]);
    if |t| < |first| {
      k, j := 0, |t|;
      assert (t + missing)[..|t|] == t;
      assert Join(parts[..0]) == [];
    } else {
      var cut := t[|first|..];
      assert (t + missing)[..|first|] == first;
      assert (t + missing)[|first|..] == cut + missing;
      var k', j' := SplitJoin(parts[1..], cut, missing);
      k, j := k' + 1, j';
      var whole, part := Join(parts[1..][..k']), parts[k][..j];
      assert parts[..k][1..] == parts[1..][..k'];
      assert Join(parts[..k]) == first + whole;
      assert t == first + cut;
      assert first + (whole + part) == first + whole + part;
    }
  }

  /** What follows a known front of a suffix. */
  lemma DropFront<T>(s: seq<T>, from: nat, front: seq<T>, back: seq<T>)
    requires from <= |s| && s[from..] == front + back
    ensures from + |front| <= |s| && s[from + |front|..] == back
  {
    assert s[from + |front|..] == (front + back)[|front|..];
  }

  /** A sequence is its first k elements followed by the others. */
  lemma TakeDrop<T>(s: seq<T>, k: nat)
    requires k <= |s|
    ensures s[..k] + s[k..] == s
  {
  }
}
