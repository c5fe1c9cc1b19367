/** Loading a rendered config (code/hand_config.c) with any names, and with those that hand2 knows
    (code/hand_config.h). */
module ConfigLoading {
  import opened Bytes
  import opened Options
  import opened ConfigPairs
  import opened ConfigNames
  import opened ConfigRoundTrip

  /** Entry k is the last one whose key stands for name i. */
  ghost predicate IsLastEntry(names: seq<seq<byte>>, entries: seq<Entry>, i: nat, k: nat) {
    && k < |entries| && Resolve(names, entries[k].key, 0) == i
    && forall j :: k < j < |entries| ==> Resolve(names, entries[j].key, 0) != i
  }

  ghost predicate IsNamed(names: seq<seq<byte>>, entries: seq<Entry>, i: nat) {
    exists k :: 0 <= k < |entries| && Resolve(names, entries[k].key, 0) == i
  }

  ghost predicate AllValid(entries: seq<Entry>) { forall k :: 0 <= k < |entries| ==> entries[k].Valid() }

  lemma {:induction false} LastEntry(names: seq<seq<byte>>, entries: seq<Entry>, i: nat, n: nat) returns (k: nat)
    requires n <= |entries| && IsNamed(names, entries, i)
    requires forall j :: n <= j < |entries| ==> Resolve(names, entries[j].key, 0) != i
    ensures IsLastEntry(names, entries, i, k)
    decreases n
  {
    hide Resolve;
    if Resolve(names, entries[n - 1].key, 0) == i {
      k := n - 1;
    } else {
      k := LastEntry(names, entries, i, n - 1);
    }
  }

  lemma LoadedPairs(names: seq<seq<byte>>, entries: seq<Entry>, tail: seq<byte>)
    requires AllValid(entries) && IsTail(tail, false)
    ensures Loaded(names, Some(Render(entries, tail))) == Stored(names, PairsOf(entries))
  {
    hide Stored, IsTail, NextPair;
    ParsingUndoesRendering(entries, tail);
    if Render(entries, tail) == [] {
      assert PairsOf(entries) == [] && Stored(names, []) == NoValues(names) by {
        NothingStored(names, entries);
      }
    }
  }

  lemma NothingStored(names: seq<seq<byte>>, entries: seq<Entry>)
    requires PairsFrom([], 0) == PairsOf(entries)
    ensures PairsOf(entries) == [] && Stored(names, []) == NoValues(names)
  {
  }

  /** Without a file, or with an empty one, every name stays without a value. */
  lemma NoFileNoValues(names: seq<seq<byte>>, i: nat)
    requires i < |names|
    ensures Loaded(names, None)[i] == None && Loaded(names, Some([]))[i] == None
  {
  }

  /** The value of the last entry that stands for name i, or nothing if there is none. */
  ghost predicate IsLastValue(names: seq<seq<byte>>, entries: seq<Entry>, i: nat, value: Option<seq<byte>>) {
    && (forall k :: 0 <= k < |entries| && IsLastEntry(names, entries, i, k) ==> value == Some(entries[k].value))
    && (value.Some? <==> IsNamed(names, entries, i))
  }

  lemma LoadedValues(names: seq<seq<byte>>, entries: seq<Entry>, tail: seq<byte>, i: nat)
    requires AllValid(entries) && IsTail(tail, false) && i < |names|
    ensures IsLastValue(names, entries, i, Loaded(names, Some(Render(entries, tail)))[i])
  {
    hide Resolve, Stored, IsTail, Loaded, ConfigRoundTrip.Render;
    LoadedPairs(names, entries, tail);
    forall k | 0 <= k < |entries| && IsLastEntry(names, entries, i, k)
      ensures Stored(names, PairsOf(entries))[i] == Some(entries[k].value)
    {
      StoredKeepsTheLast(names, PairsOf(entries), i, k);
    }
    if IsNamed(names, entries, i) {
      var k := LastEntry(names, entries, i, |entries|);
    } else {
      StoredNothing(names, PairsOf(entries), i);
    }
  }

  /** The whole way: the file is rendered entries with any white space and comments between their tokens. */
  method LoadRendered(config: array<Option<seq<byte>>>, names: seq<seq<byte>>, entries: seq<Entry>, tail: seq<byte>)
    returns (success: bool)
    requires config.Length == |names| && forall i :: 0 <= i < |names| ==> 0 !in names[i]
    requires AllValid(entries) && IsTail(tail, false)
    modifies config
    ensures success <==> forall i :: 0 <= i < |names| ==> IsNamed(names, entries, i)
    ensures forall i :: 0 <= i < |names| ==> IsLastValue(names, entries, i, config[i])
  {
    hide Resolve, Loaded, IsTail, ConfigRoundTrip.Render, IsLastEntry, IsNamed;
    success := LoadConfig(config, names, Some(Render(entries, tail)));
    forall i | 0 <= i < |names| ensures IsLastValue(names, entries, i, config[i]) {
      LoadedValues(names, entries, tail, i);
      assert config[i] == config[..][i];
    }
    assert forall i :: 0 <= i < |names| ==> config[..][i] == config[i];
    assert forall i :: 0 <= i < |names| ==> (config[i].Some? <==> IsNamed(names, entries, i));
  }

  /** hand2's names are keys, so that lines with them can be written; and they hold no NUL. */
  lemma NamesAreKeys(i: nat)
    requires i < 15
    ensures IsKey(Names()[i]) && 0 !in Names()[i]
  {
    hide IsKeyChar;
    if i < 5 {
      EarlyNameIsKey(i);
    } else if i < 10 {
      MiddleNameIsKey(i);
    } else {
      LateNameIsKey(i);
    }
    assert !IsKeyChar(0) by {
      ZeroIsNoKeyChar();
    }
  }

  lemma ZeroIsNoKeyChar()
    ensures !IsKeyChar(0)
  {
  }

  lemma EarlyNameIsKey(i: nat)
    requires i < 5
    ensures NAMES[i] != "" && IsKeyLetter(NAMES[i][0] as int % 256)
    ensures forall k :: 0 <= k < |NAMES[i]| ==> IsKeyChar(NAMES[i][k] as int % 256)
  {
  }

  lemma MiddleNameIsKey(i: nat)
    requires 5 <= i < 10
    ensures NAMES[i] != "" && IsKeyLetter(NAMES[i][0] as int % 256)
    ensures forall k :: 0 <= k < |NAMES[i]| ==> IsKeyChar(NAMES[i][k] as int % 256)
  {
  }

  lemma LateNameIsKey(i: nat)
    requires 10 <= i < 15
    ensures NAMES[i] != "" && IsKeyLetter(NAMES[i][0] as int % 256)
    ensures forall k :: 0 <= k < |NAMES[i]| ==> IsKeyChar(NAMES[i][k] as int % 256)
  {
  }

  /** A line for each name: name = "value". */
  function Lines(values: seq<seq<byte>>): (lines: seq<Entry>)
    requires |values| == 15
    ensures |lines| == 15
    ensures forall i :: 0 <= i < 15 ==> lines[i] == Entry([0x0A], Names()[i], [0x20], [0x20], 0x22, values[i])
  {
    seq(15, i requires 0 <= i < 15 => Entry([0x0A], Names()[i], [0x20], [0x20], 0x22, values[i]))
  }

  lemma LineIsValid(values: seq<seq<byte>>, i: nat)
    requires |values| == 15 && i < 15 && 0 !in values[i] && 0x22 !in values[i]
    ensures Lines(values)[i].Valid()
  {
    hide Names, IsKey;
    NamesAreKeys(i);
    BlankIsGap(0x0A);
    BlankIsGap(0x20);
  }

  lemma BlankIsGap(c: byte)
    requires c == 0x20 || c == 0x0A
    ensures IsGap([c], false)
  {
    var gap := [c];
    assert gap[0] == c && gap[1..] == [] && IsGap(gap[1..], false);
    assert IsGap(gap, false);
  }

  /** A file with a line for each of hand2's names gives each name its value, whatever the values. */
  method LoadLines(config: array<Option<seq<byte>>>, values: seq<seq<byte>>) returns (success: bool)
    requires config.Length == 15 == |values|
    requires forall i :: 0 <= i < 15 ==> 0 !in values[i] && 0x22 !in values[i]
    modifies config
    ensures success && forall i :: 0 <= i < 15 ==> config[i] == Some(values[i])
  {
    hide Names, Resolve, IsTail, Entry.Valid, IsKey, IsLastEntry, IsNamed;
    var lines := Lines(values);
    forall i | 0 <= i < 15 ensures lines[i].Valid() && 0 !in Names()[i] {
      LineIsValid(values, i);
      NamesAreKeys(i);
    }
    assert IsTail([], false) by {
      NothingIsTail();
    }
    forall i | 0 <= i < 15 ensures IsLastEntry(Names(), lines, i, i) && IsNamed(Names(), lines, i) {
      LineIsLast(values, i);
    }
    success := LoadRendered(config, Names(), lines, []);
  }

  lemma NothingIsTail()
    ensures IsTail([], false)
  {
  }

  lemma LineIsLast(values: seq<seq<byte>>, i: nat)
    requires |values| == 15 && i < 15
    ensures IsLastEntry(Names(), Lines(values), i, i) && IsNamed(Names(), Lines(values), i)
  {
    hide Names, Resolve;
    forall j | i < j < 15 ensures Resolve(Names(), Lines(values)[j].key, 0) != i {
      FullNameResolvesToItself(j);
    }
    FullNameIsLast(Lines(values), i, i);
  }

  /** An entry under a full name stands for that name, unless a later one does. */
  lemma FullNameIsLast(entries: seq<Entry>, i: nat, k: nat)
    requires i < 15 && k < |entries| && entries[k].key == Names()[i]
    requires forall j :: k < j < |entries| ==> Resolve(Names(), entries[j].key, 0) != i
    ensures IsLastEntry(Names(), entries, i, k)
  {
    hide Names, Resolve;
    FullNameResolvesToItself(i);
  }
}
