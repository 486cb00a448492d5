/**
 * The line front end of tinyredis: parse_line splits a request line into
 * words, and eval_command runs one request against the store and returns
 * the plain-text reply.
 */
module Repl {
  import opened Wrappers
  import opened StdLib
  import opened Store

  /** A token of parse_line: a non-empty run of characters that are not whitespace. */
  predicate IsWord(w: string) {
    |w| > 0 && forall k :: 0 <= k < |w| ==> !IsSpace(w[k])
  }

  /** The end of the run of non-whitespace characters that starts at index j. */
  function WordEnd(s: string, j: nat): (e: nat)
    requires j <= |s|
    ensures j <= e <= |s| && (e == |s| || IsSpace(s[e]))
    ensures j < |s| && !IsSpace(s[j]) ==> j < e
    decreases |s| - j
  {
    if j < |s| && !IsSpace(s[j]) then WordEnd(s, j + 1) else j
  }

  /** The tokens of s from index i on: whitespace is skipped, each word is read whole. */
  function TokensFrom(s: string, i: nat): (ts: seq<string>)
    requires i <= |s|
    ensures forall k :: 0 <= k < |ts| ==> IsWord(ts[k])
    decreases |s| - i
  {
    if i == |s| then []
    else if IsSpace(s[i]) then TokensFrom(s, i + 1)
    else
      WordEndRun(s, i);
      [s[i..WordEnd(s, i)]] + TokensFrom(s, WordEnd(s, i))
  }

  /** What `while (ss >> token)` collects from an istringstream over s: no token is empty or holds whitespace. */
  function Tokens(s: string): (ts: seq<string>)
    ensures forall k :: 0 <= k < |ts| ==> IsWord(ts[k])
  {
    TokensFrom(s, 0)
  }

  /** parse_line: the token-reading loop over the line. */
  method ParseLine(line: string) returns (tokens: seq<string>)
    ensures tokens == Tokens(line)
  {
    tokens := [];
    var i := 0;
    while i < |line|
      invariant i <= |line|
      invariant tokens + TokensFrom(line, i) == Tokens(line)
    {
      if IsSpace(line[i]) {
        i := i + 1;
      } else {
        var j := i;
        while j < |line| && !IsSpace(line[j])
          invariant i <= j <= |line|
          invariant WordEnd(line, j) == WordEnd(line, i)
        {
          j := j + 1;
        }
        assert tokens + TokensFrom(line, i) == (tokens + [line[i..j]]) + TokensFrom(line, j);
        tokens := tokens + [line[i..j]];
        i := j;
      }
    }
  }

  /** Every character from j up to the end of the word is not whitespace. */
  lemma {:induction false} WordEndRun(s: string, j: nat)
    requires j <= |s|
    ensures forall k :: j <= k < WordEnd(s, j) ==> !IsSpace(s[k])
    decreases |s| - j
  {
    if j < |s| && !IsSpace(s[j]) {
      WordEndRun(s, j + 1);
    }
  }

  /** The characters of s that are not whitespace, in order. */
  function NonSpaceFrom(s: string, i: nat): string
    requires i <= |s|
    decreases |s| - i
  {
    if i == |s| then [] else (if IsSpace(s[i]) then [] else [s[i]]) + NonSpaceFrom(s, i + 1)
  }

  /** The tokens hold every character that is not whitespace, each once and in order. */
  lemma {:induction false} TokensKeepText(s: string, i: nat)
    requires i <= |s|
    ensures Join(TokensFrom(s, i)) == NonSpaceFrom(s, i)
    decreases |s| - i
  {
    if i < |s| {
      if IsSpace(s[i]) {
        TokensKeepText(s, i + 1);
      } else {
        var e := WordEnd(s, i);
        TokensKeepText(s, e);
        WordEndRun(s, i);
        WordText(s, i, e);
        assert TokensFrom(s, i)[1..] == TokensFrom(s, e);
      }
    }
  }

  /** Over a run of non-whitespace characters, NonSpaceFrom keeps them all. */
  lemma {:induction false} WordText(s: string, i: nat, e: nat)
    requires i <= e <= |s|
    requires forall k :: i <= k < e ==> !IsSpace(s[k])
    ensures NonSpaceFrom(s, i) == s[i..e] + NonSpaceFrom(s, e)
    decreases e - i
  {
    if i < e {
      WordText(s, i + 1, e);
      calc {
        NonSpaceFrom(s, i);
        [s[i]] + NonSpaceFrom(s, i + 1);
        [s[i]] + (s[i + 1..e] + NonSpaceFrom(s, e));
        { assert s[i..e] == [s[i]] + s[i + 1..e]; }
        s[i..e] + NonSpaceFrom(s, e);
      }
    }
  }

  /** Reading from index k of s is reading s[k..] from its start, shifted. */
  lemma {:induction false} WordEndShift(s: string, k: nat, j: nat)
    requires k + j <= |s|
    ensures WordEnd(s, k + j) == k + WordEnd(s[k..], j)
    decreases |s| - k - j
  {
    if k + j < |s| && !IsSpace(s[k + j]) {
      WordEndShift(s, k, j + 1);
    }
  }

  lemma {:induction false} TokensShift(s: string, k: nat, i: nat)
    requires k + i <= |s|
    ensures TokensFrom(s, k + i) == TokensFrom(s[k..], i)
    decreases |s| - k - i
  {
    var t := s[k..];
    if k + i < |s| {
      assert s[k + i] == t[i];
      if IsSpace(s[k + i]) {
        TokensShift(s, k, i + 1);
      } else {
        WordEndShift(s, k, i);
        var e := WordEnd(t, i);
        assert s[k + i..k + e] == t[i..e];
        TokensShift(s, k, e);
      }
    }
  }

  /** A line as a client may type it: gaps[0] words[0] gaps[1] ... words[n-1] gaps[n]. */
  function Spaced(words: seq<string>, gaps: seq<string>): string
    requires |gaps| == |words| + 1
    decreases |words|
  {
    if words == [] then gaps[0] else gaps[0] + words[0] + Spaced(words[1..], gaps[1..])
  }

  /** A string made only of whitespace. */
  predicate Blank(g: string) {
    forall k :: 0 <= k < |g| ==> IsSpace(g[k])
  }

  /**
   * parse_line reads back any words separated by whitespace: with blank
   * gaps, any of them around the line and non-empty ones between words,
   * the tokens are exactly the words, so each token is a maximal run.
   */
  lemma {:induction false} TokensOfSpaced(words: seq<string>, gaps: seq<string>)
    requires |gaps| == |words| + 1
    requires forall k :: 0 <= k < |words| ==> IsWord(words[k])
    requires forall k :: 0 <= k < |gaps| ==> Blank(gaps[k])
    requires forall k :: 0 < k < |words| ==> gaps[k] != []
    ensures Tokens(Spaced(words, gaps)) == words
    decreases |words|
  {
    var g := gaps[0];
    if words == [] {
      SkipBlankRun(g, 0, |g|);
    } else {
      var rest := Spaced(words[1..], gaps[1..]);
      if rest != [] {
        if |words| == 1 {
          assert rest == gaps[1];
        }
        assert rest[0] == gaps[1][0];
      }
      WordBetween(g, words[0], rest);
      TokensOfSpaced(words[1..], gaps[1..]);
    }
  }

  /** Blanks, then a word ended by whitespace or the end, then the rest: the word is the first token. */
  lemma WordBetween(g: string, w: string, rest: string)
    requires Blank(g) && IsWord(w) && (rest == [] || IsSpace(rest[0]))
    ensures Tokens(g + w + rest) == [w] + Tokens(rest)
  {
    var s := g + w + rest;
    SkipBlankRun(s, 0, |g|);
    WordEndFrom(s, |g|, |g| + |w|);
    assert s[|g|..|g| + |w|] == w;
    TokensShift(s, |g| + |w|, 0);
    assert s[|g| + |w|..] == rest;
  }

  /** Whitespace before a word contributes no token. */
  lemma {:induction false} SkipBlankRun(s: string, i: nat, j: nat)
    requires i <= j <= |s|
    requires forall k :: i <= k < j ==> IsSpace(s[k])
    ensures TokensFrom(s, i) == TokensFrom(s, j)
    decreases j - i
  {
    if i < j {
      SkipBlankRun(s, i + 1, j);
    }
  }

  /** The word that starts at j ends at e when s[j..e] has no whitespace and e ends it. */
  lemma {:induction false} WordEndFrom(s: string, j: nat, e: nat)
    requires j <= e <= |s|
    requires forall k :: j <= k < e ==> !IsSpace(s[k])
    requires e == |s| || IsSpace(s[e])
    ensures WordEnd(s, j) == e
    decreases e - j
  {
    if j < e {
      WordEndFrom(s, j + 1, e);
    }
  }

  /** The example of tests/kvstore_tests.cpp:24-31. */
  lemma ParseLineExample()
    ensures Tokens("  SET  a  b  ") == ["SET", "a", "b"]
  {
    var s := "  SET  a  b  ";
    assert TokensFrom(s, 13) == [];
    assert TokensFrom(s, 11) == [];
    assert WordEnd(s, 10) == 11;
    assert s[10..11] == "b";
    assert TokensFrom(s, 10) == ["b"];
    assert TokensFrom(s, 8) == ["b"];
    assert WordEnd(s, 7) == 8;
    assert s[7..8] == "a";
    assert TokensFrom(s, 7) == ["a", "b"];
    assert TokensFrom(s, 5) == ["a", "b"];
    assert WordEnd(s, 2) == 5;
    assert s[2..5] == "SET";
    assert TokensFrom(s, 2) == ["SET", "a", "b"];
  }

  /**
   * The outcome of eval_command: the reply text, or the std::invalid_argument
   * or std::out_of_range that stoll throws in the expire branch, which
   * eval_command does not catch.
   */
  datatype Outcome = Reply(text: string) | Uncaught

  /** The number of words, command name included, that each recognised command takes. */
  function Arity(cmd: string): (r: Option<nat>)
    ensures r.Some? <==> cmd in ["ping", "set", "get", "del", "expire", "ttl", "incrby", "decrby"]
    ensures r.Some? ==> 1 <= r.value <= 3
  {
    if cmd == "ping" then Some(1)
    else if cmd == "set" || cmd == "expire" || cmd == "incrby" || cmd == "decrby" then Some(3)
    else if cmd == "get" || cmd == "del" || cmd == "ttl" then Some(2)
    else None
  }

  function WrongArgs(cmd: string): string {
    "(error) ERR wrong number of arguments for '" + cmd + "'"
  }

  function UnknownCommand(cmd: string): string {
    "(error) ERR unknown command '" + cmd + "'"
  }

  const NotInteger: string := "(error) ERR value is not an integer or out of range"

  /** std::to_string of a bool, promoted to int. */
  function BoolText(b: bool): string {
    if b then "1" else "0"
  }

  /**
   * decrby negates what stoll read; for the least 64-bit value that
   * negation overflows, which is undefined behaviour in C++.
   */
  predicate NegatesMinInt64(args: seq<string>) {
    |args| == 3 && Lowercase(args[0]) == "decrby" && StoLL(args[2]).Some? && StoLL(args[2]).value.value == MinInt64
  }

  /**
   * eval_command over the table t at instant now: the new table and the
   * outcome. incrby stands for KVStore::incrby, which has no definition.
   */
  function Eval(t: Table, args: seq<string>, now: int, incrby: IncrByFn): (r: (Table, Outcome))
    requires !NegatesMinInt64(args)
    ensures args == [] ==> r == (t, Reply(""))
    ensures r.1.Uncaught? ==> r.0 == t && |args| == 3 && Lowercase(args[0]) == "expire" && StoLL(args[2]).None?
    ensures Invariant(t) && KeepsInvariant(incrby) ==> Invariant(r.0)
  {
    if args == [] then (t, Reply(""))
    else
      var cmd := Lowercase(args[0]);
      if cmd == "ping" then PingCommand(t, args)
      else if cmd == "set" then SetCommand(t, args, now)
      else if cmd == "get" then GetCommand(t, args, now)
      else if cmd == "del" then DelCommand(t, args, now)
      else if cmd == "expire" then ExpireCommand(t, args, now)
      else if cmd == "ttl" then TtlCommand(t, args, now)
      else if cmd == "incrby" || cmd == "decrby" then IncrByCommand(t, cmd, args, now, incrby)
      else (t, Reply(UnknownCommand(cmd)))
  }

  /** The ping branch: PONG for the bare name, the arity error otherwise. */
  function PingCommand(t: Table, args: seq<string>): (r: (Table, Outcome))
    ensures r.0 == t
    ensures r.1 == Reply("PONG") <==> |args| == 1
  {
    if |args| == 1 then (t, Reply("PONG")) else (t, Reply(WrongArgs("ping")))
  }

  /** The set branch. */
  function SetCommand(t: Table, args: seq<string>, now: int): (r: (Table, Outcome))
    ensures |args| != 3 ==> r == (t, Reply(WrongArgs("set")))
    ensures |args| == 3 ==> r.1 == Reply("OK") && View(r.0, now) == View(t, now)[args[1] := args[2]]
    ensures Invariant(t) ==> Invariant(r.0)
  {
    if |args| != 3 then (t, Reply(WrongArgs("set")))
    else (t.Set(args[1], args[2], now), Reply("OK"))
  }

  /** The get branch: the value, or "(nil)". */
  function GetCommand(t: Table, args: seq<string>, now: int): (r: (Table, Outcome))
    ensures |args| != 2 ==> r == (t, Reply(WrongArgs("get")))
    ensures |args| == 2 ==> View(r.0, now) == View(t, now)
    ensures |args| == 2 && args[1] in View(t, now) ==> r.1 == Reply(View(t, now)[args[1]])
    ensures |args| == 2 && args[1] !in View(t, now) ==> r.1 == Reply("(nil)")
    ensures Invariant(t) ==> Invariant(r.0)
  {
    if |args| != 2 then (t, Reply(WrongArgs("get")))
    else
      var (u, value) := t.Get(args[1], now);
      (u, Reply(if value.Some? then value.value else "(nil)"))
  }

  /** The del branch: "1" or "0". */
  function DelCommand(t: Table, args: seq<string>, now: int): (r: (Table, Outcome))
    ensures |args| != 2 ==> r == (t, Reply(WrongArgs("del")))
    ensures |args| == 2 ==> View(r.0, now) == View(t, now) - {args[1]}
    ensures |args| == 2 ==> r.1 == Reply(if args[1] in View(t, now) then "1" else "0")
    ensures Invariant(t) ==> Invariant(r.0)
  {
    if |args| != 2 then (t, Reply(WrongArgs("del")))
    else
      var (u, removed) := t.Del(args[1], now);
      (u, Reply(BoolText(removed)))
  }

  /** The expire branch: stoll's failure escapes before the store is touched. */
  function ExpireCommand(t: Table, args: seq<string>, now: int): (r: (Table, Outcome))
    ensures |args| != 3 ==> r == (t, Reply(WrongArgs("expire")))
    ensures r.1.Uncaught? <==> |args| == 3 && StoLL(args[2]).None?
    ensures r.1.Uncaught? ==> r.0 == t
    ensures |args| == 3 && StoLL(args[2]).Some? ==> r.1 == Reply(if args[1] in View(t, now) then "1" else "0")
    ensures |args| == 3 && StoLL(args[2]).Some? && StoLL(args[2]).value.value <= 0 ==>
              View(r.0, now) == View(t, now) - {args[1]}
    ensures Invariant(t) ==> Invariant(r.0)
  {
    if |args| != 3 then (t, Reply(WrongArgs("expire")))
    else if StoLL(args[2]).None? then (t, Uncaught)
    else
      var (u, ok) := t.Expire(args[1], StoLL(args[2]).value.value, now);
      (u, Reply(BoolText(ok)))
  }

  /** The ttl branch: the count in decimal. */
  function TtlCommand(t: Table, args: seq<string>, now: int): (r: (Table, Outcome))
    ensures |args| != 2 ==> r == (t, Reply(WrongArgs("ttl")))
    ensures |args| == 2 ==> View(r.0, now) == View(t, now)
    ensures |args| == 2 && args[1] !in View(t, now) ==> r.1 == Reply("-2")
    ensures |args| == 2 && args[1] in View(t, now) && args[1] !in t.expiry ==> r.1 == Reply("-1")
    ensures Invariant(t) ==> Invariant(r.0)
  {
    if |args| != 2 then (t, Reply(WrongArgs("ttl")))
    else
      assert IntToString(-2) == "-2" && IntToString(-1) == "-1";
      var (u, seconds) := t.Ttl(args[1], now);
      (u, Reply(IntToString(seconds)))
  }

  /** The incrby and decrby branches: stoll's failure and incrby's refusal are both caught. */
  function IncrByCommand(t: Table, cmd: string, args: seq<string>, now: int, incrby: IncrByFn): (r: (Table, Outcome))
    requires cmd == "decrby" && |args| == 3 && StoLL(args[2]).Some? ==> StoLL(args[2]).value.value != MinInt64
    ensures |args| != 3 ==> r == (t, Reply(WrongArgs(cmd)))
    ensures |args| == 3 && StoLL(args[2]).None? ==> r == (t, Reply(NotInteger))
    ensures r.1.Reply?
    ensures Invariant(t) && KeepsInvariant(incrby) ==> Invariant(r.0)
  {
    if |args| != 3 then (t, Reply(WrongArgs(cmd)))
    else if StoLL(args[2]).None? then (t, Reply(NotInteger))
    else
      var n := StoLL(args[2]).value.value;
      var (u, result) := incrby(t, args[1], if cmd == "incrby" then n else -n, now);
      (u, Reply(CounterText(result)))
  }

  /** The reply for what incrby returned: the new value, or the not-an-integer error. */
  function CounterText(result: Option<int>): string {
    if result.Some? then IntToString(result.value) else NotInteger
  }

  /** eval_command against the store object. */
  method EvalCommand(db: KVStore, args: seq<string>, now: int, incrby: IncrByFn) returns (r: Outcome)
    requires db.Valid() && KeepsInvariant(incrby) && !NegatesMinInt64(args)
    modifies db
    ensures db.Valid()
    ensures (db.Model(), r) == Eval(old(db.Model()), args, now, incrby)
  {
    if |args| == 0 {
      return Reply("");
    }
    var cmd := Lowercase(args[0]);
    if cmd == "ping" {
      r := if |args| == 1 then Reply("PONG") else Reply(WrongArgs("ping"));
    } else if cmd == "set" {
      r := RunSet(db, args, now);
    } else if cmd == "get" {
      r := RunGet(db, args, now);
    } else if cmd == "del" {
      r := RunDel(db, args, now);
    } else if cmd == "expire" {
      r := RunExpire(db, args, now);
    } else if cmd == "ttl" {
      r := RunTtl(db, args, now);
    } else if cmd == "incrby" || cmd == "decrby" {
      r := RunIncrBy(db, cmd, args, now, incrby);
    } else {
      r := Reply(UnknownCommand(cmd));
    }
  }

  method RunSet(db: KVStore, args: seq<string>, now: int) returns (r: Outcome)
    requires db.Valid()
    modifies db
    ensures db.Valid()
    ensures (db.Model(), r) == SetCommand(old(db.Model()), args, now)
  {
    if |args| != 3 {
      return Reply(WrongArgs("set"));
    }
    db.Set(args[1], args[2], now);
    return Reply("OK");
  }

  method RunGet(db: KVStore, args: seq<string>, now: int) returns (r: Outcome)
    requires db.Valid()
    modifies db
    ensures db.Valid()
    ensures (db.Model(), r) == GetCommand(old(db.Model()), args, now)
  {
    if |args| != 2 {
      return Reply(WrongArgs("get"));
    }
    var value := db.Get(args[1], now);
    if value.Some? {
      return Reply(value.value);
    }
    return Reply("(nil)");
  }

  method RunDel(db: KVStore, args: seq<string>, now: int) returns (r: Outcome)
    requires db.Valid()
    modifies db
    ensures db.Valid()
    ensures (db.Model(), r) == DelCommand(old(db.Model()), args, now)
  {
    if |args| != 2 {
      return Reply(WrongArgs("del"));
    }
    var removed := db.Del(args[1], now);
    return Reply(BoolText(removed));
  }

  method RunExpire(db: KVStore, args: seq<string>, now: int) returns (r: Outcome)
    requires db.Valid()
    modifies db
    ensures db.Valid()
    ensures (db.Model(), r) == ExpireCommand(old(db.Model()), args, now)
  {
    if |args| != 3 {
      return Reply(WrongArgs("expire"));
    }
    var seconds := StoLL(args[2]);
    if seconds.None? {
      return Uncaught;
    }
    var ok := db.Expire(args[1], seconds.value.value, now);
    return Reply(BoolText(ok));
  }

  method RunTtl(db: KVStore, args: seq<string>, now: int) returns (r: Outcome)
    requires db.Valid()
    modifies db
    ensures db.Valid()
    ensures (db.Model(), r) == TtlCommand(old(db.Model()), args, now)
  {
    if |args| != 2 {
      return Reply(WrongArgs("ttl"));
    }
    var seconds := db.Ttl(args[1], now);
    return Reply(IntToString(seconds));
  }

  method RunIncrBy(db: KVStore, cmd: string, args: seq<string>, now: int, incrby: IncrByFn) returns (r: Outcome)
    requires db.Valid() && KeepsInvariant(incrby)
    requires cmd == "decrby" && |args| == 3 && StoLL(args[2]).Some? ==> StoLL(args[2]).value.value != MinInt64
    modifies db
    ensures db.Valid()
    ensures (db.Model(), r) == IncrByCommand(old(db.Model()), cmd, args, now, incrby)
  {
    if |args| != 3 {
      return Reply(WrongArgs(cmd));
    }
    var parsed := StoLL(args[2]);
    if parsed.None? {
      return Reply(NotInteger);
    }
    var delta := if cmd == "incrby" then parsed.value.value else -parsed.value.value;
    var result := db.IncrBy(args[1], delta, now, incrby);
    r := Reply(CounterText(result));
  }

  /** The command name is matched without regard to case: only its lowercase form matters. */
  lemma EvalIgnoresCase(t: Table, args: seq<string>, other: seq<string>, now: int, incrby: IncrByFn)
    requires args != [] && |other| == |args| && other[1..] == args[1..]
    requires Lowercase(other[0]) == Lowercase(args[0])
    requires !NegatesMinInt64(args)
    ensures !NegatesMinInt64(other)
    ensures Eval(t, other, now, incrby) == Eval(t, args, now, incrby)
  {
    if |args| >= 2 {
      assert other[1] == other[1..][0] == args[1..][0] == args[1];
    }
    if |args| >= 3 {
      assert other[2] == other[1..][1] == args[1..][1] == args[2];
    }
    SameOperands(t, args, other, now, incrby);
  }

  /** The command branches read only the number of words and the operands. */
  lemma SameOperands(t: Table, args: seq<string>, other: seq<string>, now: int, incrby: IncrByFn)
    requires |other| == |args| && forall k :: 1 <= k < |args| ==> other[k] == args[k]
    ensures PingCommand(t, other) == PingCommand(t, args)
    ensures SetCommand(t, other, now) == SetCommand(t, args, now)
    ensures GetCommand(t, other, now) == GetCommand(t, args, now)
    ensures DelCommand(t, other, now) == DelCommand(t, args, now)
    ensures ExpireCommand(t, other, now) == ExpireCommand(t, args, now)
    ensures TtlCommand(t, other, now) == TtlCommand(t, args, now)
    ensures IncrByCommand(t, "incrby", other, now, incrby) == IncrByCommand(t, "incrby", args, now, incrby)
    ensures (|args| == 3 && StoLL(args[2]).Some? ==> StoLL(args[2]).value.value != MinInt64) ==>
              IncrByCommand(t, "decrby", other, now, incrby) == IncrByCommand(t, "decrby", args, now, incrby)
  {
    if |args| >= 2 {
      assert other[1] == args[1];
    }
    if |args| >= 3 {
      assert other[2] == args[2];
    }
  }

  /** A name that is not a command gets the unknown-command reply, naming it in lowercase; the table is untouched. */
  lemma EvalUnknownCommand(t: Table, args: seq<string>, now: int, incrby: IncrByFn)
    requires args != [] && Arity(Lowercase(args[0])).None?
    ensures Eval(t, args, now, incrby) == (t, Reply(UnknownCommand(Lowercase(args[0]))))
  {
  }

  /** A known command with the wrong number of words gets the wrong-arity reply; the table is untouched. */
  lemma EvalWrongArity(t: Table, args: seq<string>, now: int, incrby: IncrByFn)
    requires args != [] && Arity(Lowercase(args[0])).Some? && |args| != Arity(Lowercase(args[0])).value
    ensures Eval(t, args, now, incrby) == (t, Reply(WrongArgs(Lowercase(args[0]))))
  {
  }

  /** PING with no argument answers PONG and leaves the table alone. */
  lemma EvalPing(t: Table, name: string, now: int, incrby: IncrByFn)
    requires Lowercase(name) == "ping"
    ensures Eval(t, [name], now, incrby) == (t, Reply("PONG"))
  {
  }

  /** SET answers OK, and a later GET answers the value that was set. */
  lemma EvalSetThenGet(t: Table, setName: string, getName: string, key: string, value: string, now: int, later: int, incrby: IncrByFn)
    requires Lowercase(setName) == "set" && Lowercase(getName) == "get" && now <= later
    ensures Eval(t, [setName, key, value], now, incrby).1 == Reply("OK")
    ensures Eval(Eval(t, [setName, key, value], now, incrby).0, [getName, key], later, incrby).1 == Reply(value)
  {
    SetThenGet(t, key, value, now, later);
  }

  /** GET answers the live value, or "(nil)" for a key that is not live. */
  lemma EvalGet(t: Table, name: string, key: string, now: int, incrby: IncrByFn)
    requires Lowercase(name) == "get"
    ensures key in View(t, now) ==> Eval(t, [name, key], now, incrby).1 == Reply(View(t, now)[key])
    ensures key !in View(t, now) ==> Eval(t, [name, key], now, incrby).1 == Reply("(nil)")
  {
  }

  /** DEL answers "1" exactly when the key was live, and afterwards the key is gone. */
  lemma EvalDel(t: Table, name: string, key: string, now: int, incrby: IncrByFn)
    requires Lowercase(name) == "del"
    ensures Eval(t, [name, key], now, incrby).1 == Reply(if key in View(t, now) then "1" else "0")
    ensures View(Eval(t, [name, key], now, incrby).0, now) == View(t, now) - {key}
  {
  }

  /**
   * EXPIRE with a count stoll cannot read is the uncaught exception, with
   * the table untouched; otherwise it answers "1" exactly when the key is live.
   */
  lemma EvalExpire(t: Table, name: string, key: string, count: string, now: int, incrby: IncrByFn)
    requires Lowercase(name) == "expire"
    ensures StoLL(count).None? ==> Eval(t, [name, key, count], now, incrby) == (t, Uncaught)
    ensures StoLL(count).Some? ==>
              Eval(t, [name, key, count], now, incrby) ==
              (t.Expire(key, StoLL(count).value.value, now).0, Reply(if key in View(t, now) then "1" else "0"))
  {
  }

  /** EXPIRE with a positive count, then TTL at the same instant, answers that count. */
  lemma EvalExpireThenTtl(t: Table, expire: string, ttl: string, key: string, seconds: int, now: int, incrby: IncrByFn)
    requires Lowercase(expire) == "expire" && Lowercase(ttl) == "ttl"
    requires key in View(t, now) && 0 < seconds <= MaxInt64
    ensures var u := Eval(t, [expire, key, IntToString(seconds)], now, incrby);
      u.1 == Reply("1") && Eval(u.0, [ttl, key], now, incrby).1 == Reply(IntToString(seconds))
  {
    StoLLOfIntToString(seconds, []);
    assert IntToString(seconds) + [] == IntToString(seconds);
    ExpireThenTtl(t, key, seconds, now);
  }

  /** TTL answers -2, -1 or the seconds left, written in decimal. */
  lemma EvalTtl(t: Table, name: string, key: string, now: int, incrby: IncrByFn)
    requires Lowercase(name) == "ttl"
    ensures Eval(t, [name, key], now, incrby).1 == Reply(IntToString(t.Ttl(key, now).1))
    ensures key !in View(t, now) ==> Eval(t, [name, key], now, incrby).1 == Reply("-2")
  {
    assert IntToString(-2) == "-2";
  }

  /**
   * INCRBY and DECRBY: a count stoll cannot read and a value incrby rejects
   * both answer the not-an-integer error; otherwise the reply is the new
   * value. DECRBY hands incrby the negated count.
   */
  lemma EvalIncrBy(t: Table, name: string, key: string, count: string, now: int, incrby: IncrByFn)
    requires Lowercase(name) == "incrby" || Lowercase(name) == "decrby"
    requires !NegatesMinInt64([name, key, count])
    ensures StoLL(count).None? ==> Eval(t, [name, key, count], now, incrby) == (t, Reply(NotInteger))
    ensures StoLL(count).Some? ==>
              var n := StoLL(count).value.value;
              var (u, result) := incrby(t, key, if Lowercase(name) == "incrby" then n else -n, now);
              Eval(t, [name, key, count], now, incrby) ==
              (u, Reply(if result.Some? then IntToString(result.value) else NotInteger))
  {
  }

  /** The session of tests/kvstore_tests.cpp:33-54 on an empty store. */
  lemma FullWorkflowScenario(now: int, incrby: IncrByFn)
    ensures var (t1, r1) := Eval(Empty, ["SET", "name", "John"], now, incrby);
            var (t2, r2) := Eval(t1, ["SET", "age", "25"], now, incrby);
            var (t3, r3) := Eval(t2, ["GET", "name"], now, incrby);
            var (t4, r4) := Eval(t3, ["GET", "age"], now, incrby);
            var (t5, r5) := Eval(t4, ["DEL", "name"], now, incrby);
            var (t6, r6) := Eval(t5, ["GET", "name"], now, incrby);
            var (t7, r7) := Eval(t6, ["GET", "age"], now, incrby);
            var (t8, r8) := Eval(t7, ["PING"], now, incrby);
            r1 == Reply("OK") && r2 == Reply("OK") && r3 == Reply("John") && r4 == Reply("25")
            && r5 == Reply("1") && r6 == Reply("(nil)") && r7 == Reply("25") && r8 == Reply("PONG")
  {
    assert Lowercase("SET") == "set";
    assert Lowercase("GET") == "get";
    assert Lowercase("DEL") == "del";
    assert Lowercase("PING") == "ping";
  }

  /** tests/kvstore_tests.cpp:56-64: unknown names are echoed in lowercase. */
  lemma UnknownCommandScenario(t: Table, now: int, incrby: IncrByFn)
    ensures Eval(t, ["UNKNOWN"], now, incrby) == (t, Reply("(error) ERR unknown command 'unknown'"))
    ensures Eval(t, ["INVALID", "arg1"], now, incrby) == (t, Reply("(error) ERR unknown command 'invalid'"))
  {
    assert Lowercase("UNKNOWN") == "unknown";
    assert Arity("unknown") == None;
    EvalUnknownCommand(t, ["UNKNOWN"], now, incrby);
    assert UnknownCommand("unknown") == "(error) ERR unknown command 'unknown'";
    assert Lowercase("INVALID") == "invalid";
    assert Arity("invalid") == None;
    EvalUnknownCommand(t, ["INVALID", "arg1"], now, incrby);
    assert UnknownCommand("invalid") == "(error) ERR unknown command 'invalid'";
  }

  /** tests/kvstore_tests.cpp:66-77: DEL with too few or too many arguments. */
  lemma DelWrongArityScenario(t: Table, now: int, incrby: IncrByFn)
    ensures Eval(t, ["DEL"], now, incrby) == (t, Reply("(error) ERR wrong number of arguments for 'del'"))
    ensures Eval(t, ["DEL", "key1", "key2"], now, incrby) == (t, Reply("(error) ERR wrong number of arguments for 'del'"))
  {
    assert Lowercase("DEL") == "del";
    assert WrongArgs("del") == "(error) ERR wrong number of arguments for 'del'";
  }
}
