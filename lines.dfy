/** Lines of text and the ordered map that holds them (a `BTreeMap<Id, Line>`, iterated by ascending id). */
module Lines {

  /** `Line`: a text with the number of edits currently applied to it (the view keys on it). */
  datatype Line = Line(version: nat, text: string)

  /** `BTreeMap<Id, Line>`; the map's order is the ascending order of its keys. */
  type LineMap = map<nat, Line>

  /** `Line::new`: a line nobody has edited yet. */
  function NewLine(text: string): Line
  {
    Line(0, text)
  }

  /** Every non-empty set of ids has a least element. */
  lemma {:induction false} LeastElement(keys: set<nat>) returns (k: nat)
    requires keys != {}
    ensures k in keys && forall j :: j in keys ==> k <= j
    decreases |keys|
  {
    var x :| x in keys;
    if keys == {x} {
      k := x;
    } else {
      var rest := keys - {x};
      var m := LeastElement(rest);
      k := if x < m then x else m;
      forall j | j in keys
        ensures k <= j
      {
        if j != x {
          assert j in rest;
        }
      }
    }
  }

  /** The least of a non-empty set of ids. */
  function MinOf(keys: set<nat>): (k: nat)
    requires keys != {}
    ensures k in keys && forall j :: j in keys ==> k <= j
  {
    assert exists k :: k in keys && forall j :: j in keys ==> k <= j by {
      var w := LeastElement(keys);
    }
    var k :| k in keys && forall j :: j in keys ==> k <= j; k
  }

  /** A set of ids listed in ascending order. */
  function Ascending(keys: set<nat>): (ks: seq<nat>)
    ensures |ks| == |keys|
    ensures forall i :: 0 <= i < |ks| ==> ks[i] in keys
    ensures forall i, j :: 0 <= i < j < |ks| ==> ks[i] < ks[j]
    decreases |keys|
  {
    if keys == {} then []
    else
      var k := MinOf(keys);
      var rest := keys - {k};
      [k] + Ascending(rest)
  }

  /** One step of the listing: the least id, then the rest in ascending order. */
  lemma AscendingUnfold(keys: set<nat>)
    requires keys != {}
    ensures Ascending(keys) == [MinOf(keys)] + Ascending(keys - {MinOf(keys)})
  {
  }

  /** Every id of the set appears in the ascending listing. */
  lemma {:induction false} AscendingIndexOf(keys: set<nat>, k: nat) returns (i: nat)
    requires k in keys
    ensures i < |Ascending(keys)| && Ascending(keys)[i] == k
    decreases |keys|
  {
    var k0 := MinOf(keys);
    AscendingUnfold(keys);
    if k == k0 {
      i := 0;
    } else {
      var j := AscendingIndexOf(keys - {k0}, k);
      i := j + 1;
    }
  }

  /** The keys of an ordered map in iteration order. */
  function AscendingKeys(m: LineMap): seq<nat>
  {
    Ascending(m.Keys)
  }

  /** `normalize_line_map`: the values, in ascending key order, renumbered 0, 1, 2, ... with versions reset. */
  function NormalizeLineMap(m: LineMap): LineMap
  {
    var ks := AscendingKeys(m);
    map i | 0 <= i < |ks| :: Line(0, m[ks[i]].text)
  }

  /** The position of an id in ascending order: how many ids of the set come before it. */
  function Rank(keys: set<nat>, k: nat): nat
  {
    |set j | j in keys && j < k|
  }

  /** A set holding exactly the ids below n has n elements. */
  lemma {:induction false} RangeCard(s: set<nat>, n: nat)
    requires forall i: nat :: i in s <==> i < n
    ensures |s| == n
  {
    if n > 0 {
      var s' := s - {n - 1};
      RangeCard(s', n - 1);
    }
  }

  /** Removing the least id lowers the rank of every other id by one. */
  lemma RankWithoutMin(keys: set<nat>, k: nat)
    requires k in keys && k != MinOf(keys)
    ensures Rank(keys, k) == Rank(keys - {MinOf(keys)}, k) + 1
  {
    var k0 := MinOf(keys);
    var below := set j | j in keys && j < k;
    var below' := set j | j in keys - {k0} && j < k;
    assert below == below' + {k0};
  }

  /** No id of the set is below its least one. */
  lemma RankOfMin(keys: set<nat>)
    requires keys != {}
    ensures Rank(keys, MinOf(keys)) == 0
  {
    assert (set j | j in keys && j < MinOf(keys)) == {};
  }

  /** The i-th id in ascending order has exactly i ids before it. */
  lemma {:induction false} RankOfAscending(keys: set<nat>, i: nat)
    requires i < |keys|
    ensures Rank(keys, Ascending(keys)[i]) == i
    decreases |keys|
  {
    var k0 := MinOf(keys);
    var rest := keys - {k0};
    AscendingUnfold(keys);
    if i == 0 {
      RankOfMin(keys);
    } else {
      var k := Ascending(rest)[i - 1];
      RankOfAscending(rest, i - 1);
      RankWithoutMin(keys, k);
    }
  }

  /** `normalize_line_map` compacts the ids to exactly 0..n-1 and resets every version to 0. */
  lemma NormalizeLineMapKeys(m: LineMap)
    ensures |NormalizeLineMap(m)| == |m|
    ensures forall i: nat :: i in NormalizeLineMap(m) <==> i < |m|
    ensures forall i :: i in NormalizeLineMap(m) ==> NormalizeLineMap(m)[i].version == 0
  {
    var r := NormalizeLineMap(m);
    assert |AscendingKeys(m)| == |m.Keys| == |m|;
    assert forall i: nat :: i in r.Keys <==> i < |m|;
    RangeCard(r.Keys, |m|);
  }

  /** `normalize_line_map` moves the line with id k to the rank of k in ascending id order. */
  lemma NormalizeLineMapMoves(m: LineMap, k: nat)
    requires k in m
    ensures Rank(m.Keys, k) in NormalizeLineMap(m)
    ensures NormalizeLineMap(m)[Rank(m.Keys, k)].text == m[k].text
  {
    var i := AscendingIndexOf(m.Keys, k);
    RankOfAscending(m.Keys, i);
  }
}
