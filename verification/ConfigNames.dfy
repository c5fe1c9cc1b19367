/** The names a config knows (code/hand_config.h). A key stands for the first name it is a prefix
    of, so a full name must not be a prefix of an earlier one. */
module ConfigNames {
  import opened Bytes
  import ConfigPairs

  const NAMES := [
    "github_access_token", "google_api_key", "organization", "ta_team", "student_team",
    "feedback_repository", "spreadsheet", "username_label", "student_id_label", "email",
    "grade_command", "grade_thread", "score_relative_path", "penalty_per_day", "weekends_as_one_day"]

  function Ascii(s: string): (b: seq<byte>)
    ensures |b| == |s| && forall k :: 0 <= k < |s| ==> b[k] == s[k] as int % 256
  {
    seq(|s|, (k: nat) => if k < |s| then s[k] as int % 256 else 0)
  }

  function Names(): (names: seq<seq<byte>>)
    ensures |names| == 15 && forall i :: 0 <= i < 15 ==> names[i] == Ascii(NAMES[i])
  {
    seq(15, (i: nat) => if i < 15 then Ascii(NAMES[i]) else [])
  }

  predicate DiffersAt(a: string, b: string, k: nat) {
    k < |a| && (k < |b| ==> a[k] as int % 256 != b[k] as int % 256)
  }

  lemma NotAPrefix(a: string, b: string, k: nat)
    requires DiffersAt(a, b, k)
    ensures !(Ascii(a) <= Ascii(b))
  {
    assert k < |b| ==> Ascii(a)[k] != Ascii(b)[k];
  }

  /** The position at which two of the names differ. */
  function Difference(i: nat, j: nat): nat
    requires j < i < 15
  {
    if i == 11 && j == 10 then 6
    else if i == 8 && j == 4 then 8
    else if NAMES[i][0] == NAMES[j][0] then 1 else 0
  }

  lemma NamesDiffer(i: nat, j: nat)
    requires j < i < 15
    ensures DiffersAt(NAMES[i], NAMES[j], Difference(i, j))
  {
    hide DiffersAt;
    if i < 8 {
      EarlyNamesDiffer(i, j);
    } else if i < 12 {
      MiddleNamesDiffer(i, j);
    } else {
      LateNamesDiffer(i, j);
    }
  }

  lemma EarlyNamesDiffer(i: nat, j: nat)
    requires j < i < 8
    ensures DiffersAt(NAMES[i], NAMES[j], Difference(i, j))
  {
  }

  lemma MiddleNamesDiffer(i: nat, j: nat)
    requires j < i && 8 <= i < 12
    ensures DiffersAt(NAMES[i], NAMES[j], Difference(i, j))
  {
  }

  lemma LateNamesDiffer(i: nat, j: nat)
    requires j < i && 12 <= i < 15
    ensures DiffersAt(NAMES[i], NAMES[j], Difference(i, j))
  {
  }

  lemma {:induction false} ResolveSkips(names: seq<seq<byte>>, key: seq<byte>, from: nat, i: nat)
    requires from <= i < |names| && key <= names[i]
    requires forall j :: from <= j < i ==> !(key <= names[j])
    ensures ConfigPairs.Resolve(names, key, from) == i
    decreases i - from
  {
    if from < i {
      ResolveSkips(names, key, from + 1, i);
    }
  }

  /** Every full name is its own key. */
  lemma FullNameResolvesToItself(i: nat)
    requires i < 15
    ensures ConfigPairs.Resolve(Names(), Names()[i], 0) == i
  {
    forall j | 0 <= j < i ensures !(Names()[i] <= Names()[j]) {
      NamesDiffer(i, j);
      NotAPrefix(NAMES[i], NAMES[j], Difference(i, j));
    }
    ResolveSkips(Names(), Names()[i], 0, i);
  }
}
