/** Key-value pairs of a config text and the table they are stored in (code/hand_config.c). */
module ConfigPairs {
  import opened Bytes
  import opened Options
  import opened ConfigLexer

  // --- parse_key_value_pair ---

  /** A pair with the position after it, or the position where the parse gave up. */
  datatype Step = NoMore(pos: nat) | Pair(key: Token, value: Token, pos: nat)

  predicate IsPair(text: seq<byte>, pos: nat)
    requires pos <= |text|
  {
    && TokenAt(text, pos, 0).kind == Identifier
    && TokenAt(text, pos, 1).kind == Equal
    && TokenAt(text, pos, 2).kind == Str
  }

  /** Tokens eaten by a round that finds no pair: what it recognised, and one more. */
  function Rejected(text: seq<byte>, pos: nat): nat
    requires pos <= |text|
  {
    1 + (if TokenAt(text, pos, 0).kind == Identifier then 1 else 0)
      + (if TokenAt(text, pos, 0).kind == Identifier && TokenAt(text, pos, 1).kind == Equal then 1 else 0)
  }

  lemma AfterAdvances(text: seq<byte>, pos: nat, n: nat)
    requires pos <= |text| && n > 0 && TokenAt(text, pos, 0).kind != Eof
    ensures After(text, pos, n) > pos
  {
    hide Lex;
    AfterNone(text, pos);
    assert After(text, pos, 1) > pos;
    AfterShift(text, pos, 1, n - 1);
  }

  function NextPair(text: seq<byte>, pos: nat): (step: Step)
    requires pos <= |text|
    ensures pos <= step.pos <= |text|
    ensures step.Pair? ==> pos < step.pos
    ensures step.Pair? ==> step.key.start + step.key.len <= |text| && step.value.start + step.value.len <= |text|
    decreases |text| - pos
  {
    if TokenAt(text, pos, 0).kind == Eof then NoMore(pos)
    else if IsPair(text, pos) then
      AfterAdvances(text, pos, 3);
      Pair(TokenAt(text, pos, 0), TokenAt(text, pos, 2), After(text, pos, 3))
    else
      AfterAdvances(text, pos, Rejected(text, pos));
      NextPair(text, After(text, pos, Rejected(text, pos)))
  }

  method EatTokens(parser: ConfigParser, n: nat)
    requires parser.Valid()
    modifies parser, parser.lookaheads
    ensures parser.Valid() && parser.pos == After(parser.content, old(parser.pos), n)
  {
    hide Lex, TokenAt;
    AfterNone(parser.content, parser.pos);
    for i := 0 to n
      invariant parser.Valid() && parser.pos == After(parser.content, old(parser.pos), i)
    {
      AfterShift(parser.content, old(parser.pos), i, 1);
      parser.EatToken();
    }
  }

  /** more tells whether key and value were found. Each round without a pair moves on. */
  method ParseKeyValuePair(parser: ConfigParser) returns (more: bool, key: Token, value: Token)
    requires parser.Valid()
    modifies parser, parser.lookaheads
    ensures parser.Valid()
    ensures var step := NextPair(parser.content, old(parser.pos));
            && parser.pos == step.pos && more == step.Pair?
            && (more ==> key == step.key && value == step.value)
  {
    hide Lex, After, TokenAt;
    more, key, value := false, NO_TOKEN, NO_TOKEN;
    while true
      invariant parser.Valid()
      invariant NextPair(parser.content, parser.pos) == NextPair(parser.content, old(parser.pos))
      decreases |parser.content| - parser.pos
    {
      ghost var pos := parser.pos;
      var t0 := parser.PeekToken(0);
      var t1 := parser.PeekToken(1);
      var t2 := parser.PeekToken(2);
      if t0.kind == Eof {
        return;
      }
      if t0.kind == Identifier && t1.kind == Equal && t2.kind == Str {
        EatTokens(parser, 3);
        return true, t0, t2;
      }
      AfterAdvances(parser.content, pos, Rejected(parser.content, pos));
      EatTokens(parser, 1 + (if t0.kind == Identifier then 1 else 0)
                          + (if t0.kind == Identifier && t1.kind == Equal then 1 else 0));
    }
  }

  // --- load_config ---

  /** The first of the names that starts with the key, or their number. */
  function Resolve(names: seq<seq<byte>>, key: seq<byte>, from: nat): (i: nat)
    requires from <= |names|
    ensures from <= i <= |names|
    ensures forall k :: from <= k < i ==> !(key <= names[k])
    ensures i < |names| ==> key <= names[i]
    decreases |names| - from
  {
    if from == |names| || key <= names[from] then from else Resolve(names, key, from + 1)
  }

  function TextOf(text: seq<byte>, t: Token): seq<byte>
    requires t.start + t.len <= |text|
  {
    text[t.start..t.start + t.len]
  }

  /** All pairs that successive calls return, from a position on. */
  function PairsFrom(text: seq<byte>, pos: nat): seq<(seq<byte>, seq<byte>)>
    requires pos <= |text|
    decreases |text| - pos
  {
    var step := NextPair(text, pos);
    if step.NoMore? then []
    else [(TextOf(text, step.key), TextOf(text, step.value))] + PairsFrom(text, step.pos)
  }

  lemma {:induction false} NameHasNoNul(text: seq<byte>, at: nat)
    requires at <= |text|
    ensures 0 !in text[at..NameEnd(text, at)]
    decreases |text| - at
  {
    var end := NameEnd(text, at);
    if end > at {
      NameHasNoNul(text, at + 1);
      assert text[at..end] == [text[at]] + text[at + 1..end];
    }
  }

  lemma {:induction false} KeyHasNoNul(text: seq<byte>, pos: nat)
    requires pos <= |text|
    ensures NextPair(text, pos).Pair? ==> 0 !in TextOf(text, NextPair(text, pos).key)
    decreases |text| - pos
  {
    if TokenAt(text, pos, 0).kind == Identifier && IsPair(text, pos) {
      NameHasNoNul(text, TokenAt(text, pos, 0).start);
    } else if TokenAt(text, pos, 0).kind != Eof {
      AfterAdvances(text, pos, Rejected(text, pos));
      KeyHasNoNul(text, After(text, pos, Rejected(text, pos)));
    }
  }

  type Values = seq<Option<seq<byte>>>

  function NoValues(names: seq<seq<byte>>): (values: Values)
    ensures |values| == |names|
  {
    seq(|names|, _ => None)
  }

  /** The values after the pairs are stored one after the other. */
  function Stored(names: seq<seq<byte>>, pairs: seq<(seq<byte>, seq<byte>)>): (values: Values)
    ensures |values| == |names|
  {
    if pairs == [] then NoValues(names)
    else Put(names, Stored(names, pairs[..|pairs| - 1]), pairs[|pairs| - 1])
  }

  /** The pair's value goes to the first name its key is a prefix of, if there is one. */
  function Put(names: seq<seq<byte>>, values: Values, pair: (seq<byte>, seq<byte>)): (after: Values)
    requires |values| == |names|
    ensures |after| == |names|
  {
    var i := Resolve(names, pair.0, 0);
    if i < |names| then values[i := Some(pair.1)] else values
  }

  predicate Complete(values: Values) { forall i :: 0 <= i < |values| ==> values[i].Some? }

  /** compare_substring: the first len bytes of a, against a NUL-terminated name. */
  method CompareSubstring(a: seq<byte>, name: seq<byte>, len: nat) returns (equal: bool)
    requires len <= |a| && 0 !in name
    ensures equal <==> 0 !in a[..len] && a[..len] <= name
  {
    for i := 0 to len
      invariant i <= |name| && a[..i] == name[..i] && 0 !in a[..i]
    {
      var b: byte := if i < |name| then name[i] else 0;
      assert a[..len][i] == a[i];
      if a[i] != b || a[i] == 0 || b == 0 {
        return false;
      }
    }
    return true;
  }

  method StorePair(config: array<Option<seq<byte>>>, names: seq<seq<byte>>, content: seq<byte>,
                   key: Token, value: Token)
    requires config.Length == |names| && forall i :: 0 <= i < |names| ==> 0 !in names[i]
    requires key.start + key.len <= |content| && value.start + value.len <= |content|
    requires 0 !in TextOf(content, key)
    modifies config
    ensures config[..] == Put(names, old(config[..]), (TextOf(content, key), TextOf(content, value)))
  {
    var i := 0;
    while i < |names|
      invariant i <= |names| && config[..] == old(config[..])
      invariant Resolve(names, TextOf(content, key), 0) == Resolve(names, TextOf(content, key), i)
    {
      assert content[key.start..][..key.len] == TextOf(content, key);
      var equal := CompareSubstring(content[key.start..], names[i], key.len);
      if equal {
        config[i] := Some(TextOf(content, value));
        break;
      }
      i := i + 1;
    }
  }

  /** The values a file is read as: none when it cannot be opened or is empty. */
  function Loaded(names: seq<seq<byte>>, file: Option<seq<byte>>): Values {
    if file.Some? && |file.value| > 0 then Stored(names, PairsFrom(file.value, 0)) else NoValues(names)
  }

  method LoadConfig(config: array<Option<seq<byte>>>, names: seq<seq<byte>>, file: Option<seq<byte>>)
    returns (success: bool)
    requires config.Length == |names| && forall i :: 0 <= i < |names| ==> 0 !in names[i]
    modifies config
    ensures config[..] == Loaded(names, file)
    ensures success == Complete(Loaded(names, file))
  {
    for i := 0 to config.Length
      invariant forall k :: 0 <= k < i ==> config[k] == None
    {
      config[i] := None;
    }
    assert config[..] == NoValues(names);
    if file.Some? && |file.value| > 0 {
      LoadText(config, names, file.value);
    }
    success := CheckComplete(config);
  }

  method CheckComplete(config: array<Option<seq<byte>>>) returns (success: bool)
    ensures success == Complete(config[..])
  {
    success := true;
    for i := 0 to config.Length
      invariant success <==> forall k :: 0 <= k < i ==> config[k].Some?
    {
      if config[i].None? {
        success := false;
      }
    }
    assert forall i :: 0 <= i < config.Length ==> config[..][i] == config[i];
  }

  function PairText(text: seq<byte>, step: Step): (seq<byte>, seq<byte>)
    requires step.Pair?
    requires step.key.start + step.key.len <= |text| && step.value.start + step.value.len <= |text|
  {
    (TextOf(text, step.key), TextOf(text, step.value))
  }

  /** One turn of the loop. */
  method LoadPair(config: array<Option<seq<byte>>>, names: seq<seq<byte>>, parser: ConfigParser) returns (more: bool)
    requires config.Length == |names| && forall i :: 0 <= i < |names| ==> 0 !in names[i]
    requires parser.Valid()
    modifies config, parser, parser.lookaheads
    ensures parser.Valid()
    ensures var step := NextPair(parser.content, old(parser.pos));
            && parser.pos == step.pos && more == step.Pair?
            && config[..] ==
                 if more then Put(names, old(config[..]), PairText(parser.content, step)) else old(config[..])
  {
    hide Put;
    KeyHasNoNul(parser.content, parser.pos);
    var key, value;
    more, key, value := ParseKeyValuePair(parser);
    if more {
      StorePair(config, names, parser.content, key, value);
    }
  }

  lemma PairsFromStep(text: seq<byte>, pos: nat, seen: seq<(seq<byte>, seq<byte>)>)
    requires pos <= |text|
    ensures var step := NextPair(text, pos);
            seen + PairsFrom(text, pos) ==
            if step.NoMore? then seen else seen + [PairText(text, step)] + PairsFrom(text, step.pos)
  {
  }

  lemma StoredPush(names: seq<seq<byte>>, pairs: seq<(seq<byte>, seq<byte>)>, pair: (seq<byte>, seq<byte>))
    ensures Stored(names, pairs + [pair]) == Put(names, Stored(names, pairs), pair)
  {
    assert (pairs + [pair])[..|pairs|] == pairs;
  }

  method LoadText(config: array<Option<seq<byte>>>, names: seq<seq<byte>>, content: seq<byte>)
    requires config.Length == |names| && forall i :: 0 <= i < |names| ==> 0 !in names[i]
    requires config[..] == NoValues(names)
    modifies config
    ensures config[..] == Stored(names, PairsFrom(content, 0))
  {
    hide NextPair, Put, PairText;
    var parser := new ConfigParser(content);
    ghost var pairs: seq<(seq<byte>, seq<byte>)> := [];
    var more := true;
    while more
      invariant parser.Valid() && fresh(parser) && fresh(parser.lookaheads) && parser.content == content
      invariant config[..] == Stored(names, pairs)
      invariant PairsFrom(content, 0) == if more then pairs + PairsFrom(content, parser.pos) else pairs
      decreases more, |content| - parser.pos
    {
      ghost var step := NextPair(content, parser.pos);
      PairsFromStep(content, parser.pos, pairs);
      more := LoadPair(config, names, parser);
      if more {
        StoredPush(names, pairs, PairText(content, step));
        pairs := pairs + [PairText(content, step)];
      }
    }
  }

  /** k is the last pair that resolves to name i. */
  ghost predicate IsLastFor(names: seq<seq<byte>>, pairs: seq<(seq<byte>, seq<byte>)>, i: nat, k: nat) {
    && k < |pairs| && Resolve(names, pairs[k].0, 0) == i
    && forall j :: k < j < |pairs| ==> Resolve(names, pairs[j].0, 0) != i
  }

  /** A name holds the last value whose key resolved to it... */
  lemma {:induction false} StoredKeepsTheLast(names: seq<seq<byte>>, pairs: seq<(seq<byte>, seq<byte>)>, i: nat, k: nat)
    requires i < |names| && IsLastFor(names, pairs, i, k)
    ensures Stored(names, pairs)[i] == Some(pairs[k].1)
    decreases |pairs|
  {
    hide Resolve;
    var last := |pairs| - 1;
    if k < last {
      assert Resolve(names, pairs[last].0, 0) != i;
      assert forall j :: 0 <= j < last ==> pairs[..last][j] == pairs[j];
      StoredKeepsTheLast(names, pairs[..last], i, k);
    }
  }

  /** ...and nothing if no key did. */
  lemma {:induction false} StoredNothing(names: seq<seq<byte>>, pairs: seq<(seq<byte>, seq<byte>)>, i: nat)
    requires i < |names| && forall j :: 0 <= j < |pairs| ==> Resolve(names, pairs[j].0, 0) != i
    ensures Stored(names, pairs)[i].None?
    decreases |pairs|
  {
    hide Resolve;
    if pairs != [] {
      var last := |pairs| - 1;
      assert Resolve(names, pairs[last].0, 0) != i;
      assert forall j :: 0 <= j < last ==> pairs[..last][j] == pairs[j];
      StoredNothing(names, pairs[..last], i);
    }
  }
}
