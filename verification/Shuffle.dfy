/** Putting received source packets in their own places (rtp/fec/fec.c, fec_shuffle). */
module Shuffle {
  import opened Pigeonhole

  /** Every index below k stands at its own position. */
  ghost predicate Placed(s: seq<nat>, k: nat) {
    |s| == k && forall i :: 0 <= i < k ==> s[i] >= k || s[i] == i
  }

  /** The positions already holding their own index. */
  ghost function Fixed(s: seq<nat>, k: nat): set<nat>
    requires |s| == k
  {
    set i | i in Below(k) && s[i] == i
  }

  lemma TwoPlaces(s: seq<nat>, i: nat, j: nat)
    requires i < j < |s| && s[i] == s[j]
    ensures multiset(s)[s[i]] >= 2
  {
    assert s == s[..j] + [s[j]] + s[j + 1..];
    assert s[i] in multiset(s[..j]) by {
      assert s[..j][i] == s[i];
    }
  }

  lemma {:induction false} OncePerPlace(s: seq<nat>, v: nat)
    requires forall i, j :: 0 <= i < j < |s| && s[i] == v ==> s[j] != v
    ensures multiset(s)[v] <= 1
  {
    if s != [] {
      var n := |s| - 1;
      assert s == s[..n] + [s[n]];
      if s[n] == v {
        assert v !in s[..n];
      } else {
        OncePerPlace(s[..n], v);
      }
    }
  }

  lemma DistinctIsOnce(s: seq<nat>)
    ensures Distinct(s) <==> forall v {:trigger multiset(s)[v]} :: multiset(s)[v] <= 1
  {
    if Distinct(s) {
      forall v ensures multiset(s)[v] <= 1 {
        if v in s {
          OncePerPlace(s, v);
        }
      }
    } else {
      var i, j :| 0 <= i < j < |s| && s[i] == s[j];
      TwoPlaces(s, i, j);
    }
  }

  lemma SamePacketsDistinct(s: seq<nat>, t: seq<nat>)
    requires multiset(s) == multiset(t)
    ensures Distinct(s) <==> Distinct(t)
  {
    DistinctIsOnce(s);
    DistinctIsOnce(t);
  }

  ghost function Misplaced(s: seq<nat>, k: nat): nat
    requires |s| == k
  {
    SubsetCount(Fixed(s, k), Below(k));
    k - |Fixed(s, k)|
  }

  /** No index below k occurs twice. */
  ghost predicate OnceBelow(packets: multiset<nat>, k: nat) {
    forall v: nat {:trigger packets[v]} | v < k :: packets[v] <= 1
  }

  /** One exchange: index c = s[i] moves to position c, what stood there moves to i. */
  ghost function Exchange(s: seq<nat>, i: nat, c: nat): (t: seq<nat>)
    requires i < |s| && c < |s| && s[i] == c
    ensures |t| == |s|
  {
    s[i := s[c]][c := c]
  }

  /** An exchange keeps the packets and adds a fixed point. */
  lemma ExchangeProgress(s: seq<nat>, k: nat, i: nat, c: nat)
    requires |s| == k && i < k && c < k && s[i] == c && s[c] != c
    ensures multiset(Exchange(s, i, c)) == multiset(s)
    ensures Misplaced(Exchange(s, i, c), k) < Misplaced(s, k)
  {
    var t := Exchange(s, i, c);
    assert c in Fixed(t, k) && c !in Fixed(s, k);
    assert i !in Fixed(s, k);
    assert forall j :: 0 <= j < k && j != i && j != c ==> t[j] == s[j];
    assert Fixed(s, k) <= Fixed(t, k) - {c};
    SubsetCount(Fixed(s, k), Fixed(t, k) - {c});
    SubsetCount(Fixed(t, k), Below(k));
  }

  /** Moves index c = idxs[i] to its own position. */
  method MoveHome(idxs: array<nat>, i: nat, c: nat)
    requires i < idxs.Length && c < idxs.Length && idxs[i] == c
    modifies idxs
    ensures idxs[..] == Exchange(old(idxs[..]), i, c)
  {
    idxs[i] := idxs[c];
    idxs[c] := c;
  }

  /** fec_shuffle: fails exactly when some index below k is repeated. */
  method FecShuffle(k: nat, idxs: array<nat>) returns (ok: bool)
    requires idxs.Length == k
    modifies idxs
    ensures multiset(idxs[..]) == multiset(old(idxs[..]))
    ensures ok ==> Placed(idxs[..], k)
    ensures ok <==> OnceBelow(multiset(old(idxs[..])), k)
  {
    hide Misplaced, OnceBelow, Exchange;
    ghost var packets := multiset(idxs[..]);
    var i := 0;
    while i < k
      invariant 0 <= i <= k
      invariant multiset(idxs[..]) == packets
      invariant forall j :: 0 <= j < i ==> idxs[j] >= k || idxs[j] == j
      decreases Misplaced(idxs[..], k), k - i
    {
      if idxs[i] >= k || idxs[i] == i {
        i := i + 1;
      } else {
        var c := idxs[i];
        if idxs[c] == c {
          Conflict(idxs[..], k, i, c);
          return false;
        }
        ghost var before := idxs[..];
        ExchangeProgress(before, k, i, c);
        MoveHome(idxs, i, c);
        StillPlaced(before, k, i, c);
      }
    }
    PlacedOnce(idxs[..], k);
    return true;
  }

  /** Positions already passed stay in order. */
  lemma StillPlaced(s: seq<nat>, k: nat, i: nat, c: nat)
    requires |s| == k && i < k && c < k && s[i] == c && s[c] != c
    requires forall j :: 0 <= j < i ==> s[j] >= k || s[j] == j
    ensures forall j :: 0 <= j < i ==> Exchange(s, i, c)[j] >= k || Exchange(s, i, c)[j] == j
  {
  }

  /** A second copy of an index that already is in place. */
  lemma Conflict(s: seq<nat>, k: nat, i: nat, c: nat)
    requires i < |s| && c < |s| && c < k && s[i] == c && s[c] == c && i != c
    ensures !OnceBelow(multiset(s), k)
  {
    if i < c {
      TwoPlaces(s, i, c);
    } else {
      TwoPlaces(s, c, i);
    }
  }

  lemma PlacedOnce(s: seq<nat>, k: nat)
    requires Placed(s, k)
    ensures OnceBelow(multiset(s), k)
  {
    forall v: nat | v < k ensures multiset(s)[v] <= 1 {
      OncePerPlace(s, v);
    }
  }
}
