/**
 Sequences without repeats, and the scan that finds the first repeat.
 */
module Repeats {
  import opened Graph

  ghost predicate NoRepeats<V(!new)>(values: seq<V>) {
    forall i, j :: 0 <= i < j < |values| ==> values[i] != values[j]
  }

  /** Position `i` is the first whose value stands before it already. */
  ghost predicate FirstRepeat<V(!new)>(values: seq<V>, i: nat) {
    i < |values| && NoRepeats(values[..i]) && values[i] in values[..i]
  }

  lemma RepeatsShow<V(!new)>(values: seq<V>, i: nat)
    requires i < |values| && values[i] in values[..i]
    ensures !NoRepeats(values)
  {
    var j :| 0 <= j < i && values[..i][j] == values[i];
    assert values[j] == values[i];
  }

  lemma NoRepeatsGrows<V(!new)>(values: seq<V>, i: nat)
    requires i < |values| && NoRepeats(values[..i]) && values[i] !in values[..i]
    ensures NoRepeats(values[..i + 1])
  {
    var now := values[..i + 1];
    forall j, k | 0 <= j < k < |now| ensures now[j] != now[k] {
      assert values[..i][j] == now[j];
      assert k < i ==> values[..i][k] == now[k];
    }
  }

  /** Scan for a value that was seen before, keeping what was seen in a set. */
  method FindRepeat<V(==, !new)>(values: seq<V>) returns (repeat: Option<nat>)
    ensures repeat.None? <==> NoRepeats(values)
    ensures repeat.Some? ==> FirstRepeat(values, repeat.value)
  {
    var seen: set<V> := {};
    for i := 0 to |values|
      invariant forall v :: v in seen <==> v in values[..i]
      invariant NoRepeats(values[..i])
    {
      if values[i] in seen {
        RepeatsShow(values, i);
        return Some(i);
      }
      NoRepeatsGrows(values, i);
      assert values[..i + 1] == values[..i] + [values[i]];
      seen := seen + {values[i]};
    }
    assert values[..|values|] == values;
    repeat := None;
  }

  lemma FirstRepeatAt<V(!new)>(values: seq<V>, i: nat)
    requires i < |values| && NoRepeats(values[..i]) && values[i] in values[..i]
    ensures FirstRepeat(values, i)
  {
  }
}
