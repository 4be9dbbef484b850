/** Maps laid over each other in some order: the later one wins. */
module Overlays {

  function Part<K, V>(parts: seq<map<K, V>>, j: nat): map<K, V> {
    if j < |parts| then parts[j] else map[]
  }

  function Overlay<K, V>(parts: seq<map<K, V>>, order: seq<nat>): map<K, V> {
    if order == [] then map[] else Overlay(parts, order[..|order| - 1]) + Part(parts, order[|order| - 1])
  }

  /** The last place in the order where a part has the key. */
  ghost predicate IsLastWith<K, V>(parts: seq<map<K, V>>, order: seq<nat>, x: K, k: int) {
    && 0 <= k < |order| && x in Part(parts, order[k])
    && forall l :: k < l < |order| ==> x !in Part(parts, order[l])
  }

  lemma OverlayAppend<K, V>(parts: seq<map<K, V>>, order: seq<nat>, j: nat)
    ensures Overlay(parts, order + [j]) == Overlay(parts, order) + Part(parts, j)
  {
    assert (order + [j])[..|order|] == order;
  }

  /** A key of the whole has the value of the last part that has it. */
  lemma {:induction false} OverlayLast<K, V>(parts: seq<map<K, V>>, order: seq<nat>, x: K) returns (k: nat)
    requires x in Overlay(parts, order)
    ensures IsLastWith(parts, order, x, k) && Overlay(parts, order)[x] == Part(parts, order[k])[x]
  {
    var n := |order| - 1;
    if x in Part(parts, order[n]) {
      k := n;
    } else {
      k := OverlayLast(parts, order[..n], x);
      forall l | k < l < |order| ensures x !in Part(parts, order[l]) {
        if l < n {
          assert order[..n][l] == order[l];
        }
      }
    }
  }

  /** The whole has the keys of its parts. */
  lemma {:induction false} OverlayHas<K, V>(parts: seq<map<K, V>>, order: seq<nat>, j: nat, x: K)
    requires j in order && x in Part(parts, j)
    ensures x in Overlay(parts, order)
  {
    var n := |order| - 1;
    if order[n] != j {
      assert order == order[..n] + [order[n]];
      OverlayHas(parts, order[..n], j, x);
    }
  }

  /** Parts that agree on the keys they share. */
  ghost predicate Agree<K(!new), V>(parts: seq<map<K, V>>) {
    forall j, k, x :: 0 <= j < |parts| && 0 <= k < |parts| && x in parts[j] && x in parts[k] ==>
      parts[j][x] == parts[k][x]
  }

  lemma Disagreement<K(!new), V>(parts: seq<map<K, V>>) returns (j: nat, k: nat, x: K)
    requires !Agree(parts)
    ensures j < |parts| && k < |parts| && x in parts[j] && x in parts[k] && parts[j][x] != parts[k][x]
  {
    j, k, x :| 0 <= j < |parts| && 0 <= k < |parts| && x in parts[j] && x in parts[k] && parts[j][x] != parts[k][x];
  }

  /** Two orders of the same parts have the same keys, and are the same whole when the parts agree. */
  lemma OverlaySame<K(!new), V>(parts: seq<map<K, V>>, a: seq<nat>, b: seq<nat>)
    requires forall j :: j in a <==> j in b
    ensures Overlay(parts, a).Keys == Overlay(parts, b).Keys
    ensures Agree(parts) ==> Overlay(parts, a) == Overlay(parts, b)
  {
    hide Overlay;
    forall x ensures x in Overlay(parts, a) <==> x in Overlay(parts, b) {
      if x in Overlay(parts, a) {
        var k := OverlayLast(parts, a, x);
        OverlayHas(parts, b, a[k], x);
      }
      if x in Overlay(parts, b) {
        var k := OverlayLast(parts, b, x);
        OverlayHas(parts, a, b[k], x);
      }
    }
    if Agree(parts) {
      forall x | x in Overlay(parts, a) ensures Overlay(parts, a)[x] == Overlay(parts, b)[x] {
        var k := OverlayLast(parts, a, x);
        var l := OverlayLast(parts, b, x);
      }
    }
  }

  /** A part laid last shows in all its keys. */
  lemma OverlayEnds<K, V>(parts: seq<map<K, V>>, order: seq<nat>, j: nat, x: K)
    requires order != [] && order[|order| - 1] == j && x in Part(parts, j)
    ensures x in Overlay(parts, order) && Overlay(parts, order)[x] == Part(parts, j)[x]
  {
  }
}
