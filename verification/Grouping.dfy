/** Grouping named values the way a dictionary of lists filled in a loop does. */
module Grouping {

  datatype Pair<+V> = Pair(name: string, value: V)

  /** The values under a name, in order. */
  function ValuesOf<V>(name: string, pairs: seq<Pair<V>>): seq<V> {
    if |pairs| == 0 then []
    else
      ValuesOf(name, pairs[..|pairs| - 1]) +
      if pairs[|pairs| - 1].name == name then [pairs[|pairs| - 1].value] else []
  }

  /** `groups` holds exactly `pairs`: every name has its values, in order, and no other name is there. */
  ghost predicate Groups<V>(groups: map<string, seq<V>>, pairs: seq<Pair<V>>) {
    forall n: string ::
      (n in groups <==> ValuesOf(n, pairs) != []) && (n in groups ==> groups[n] == ValuesOf(n, pairs))
  }

  /** `if name in d: d[name].append(value) else: d[name] = [value]`. */
  function Append<V>(groups: map<string, seq<V>>, p: Pair<V>): map<string, seq<V>> {
    groups[p.name := if p.name in groups then groups[p.name] + [p.value] else [p.value]]
  }

  lemma GroupsSnoc<V>(groups: map<string, seq<V>>, pairs: seq<Pair<V>>, p: Pair<V>)
    requires Groups(groups, pairs)
    ensures Groups(Append(groups, p), pairs + [p])
  {
    assert (pairs + [p])[..|pairs|] == pairs;
  }
}
