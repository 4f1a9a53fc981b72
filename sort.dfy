/**
 * `relevant_subnets.sort(key=lambda x: x.network_address)`: Python's
 * `list.sort` is stable, so networks with the same network address keep
 * the order they had. It is modelled as a stable insertion sort on values.
 */
module NetworkSort {
  import opened Addresses

  predicate SortedByNetwork(s: seq<Prefix>)
  {
    forall i, j :: 0 <= i < j < |s| ==> s[i].network <= s[j].network
  }

  /** Puts x in front of the first element whose network address is not below x's. */
  function Insert(x: Prefix, s: seq<Prefix>): seq<Prefix>
  {
    if |s| == 0 || x.network <= s[0].network then [x] + s
    else [s[0]] + Insert(x, s[1..])
  }

  /** The sorted list; an element goes in front of the later elements with the same key. */
  function SortByNetwork(s: seq<Prefix>): seq<Prefix>
  {
    if |s| == 0 then [] else Insert(s[0], SortByNetwork(s[1..]))
  }

  /** The elements of `s` whose network address is `key`, in order. */
  function WithNetwork(s: seq<Prefix>, key: nat): seq<Prefix>
  {
    if |s| == 0 then []
    else if s[0].network == key then [s[0]] + WithNetwork(s[1..], key)
    else WithNetwork(s[1..], key)
  }

  lemma {:induction false} WithNetworkMembers(s: seq<Prefix>, key: nat)
    ensures forall p :: p in WithNetwork(s, key) <==> p in s && p.network == key
  {
    if |s| > 0 {
      WithNetworkMembers(s[1..], key);
      assert forall p :: p in s <==> p == s[0] || p in s[1..] by {
        assert s == [s[0]] + s[1..];
      }
    }
  }

  lemma {:induction false} InsertPermutes(x: Prefix, s: seq<Prefix>)
    ensures multiset(Insert(x, s)) == multiset([x] + s)
  {
    if |s| > 0 && x.network > s[0].network {
      InsertPermutes(x, s[1..]);
      assert s == [s[0]] + s[1..];
    }
  }

  lemma {:induction false} InsertSorted(x: Prefix, s: seq<Prefix>)
    requires SortedByNetwork(s)
    ensures SortedByNetwork(Insert(x, s))
  {
    if |s| > 0 && x.network > s[0].network {
      InsertSorted(x, s[1..]);
      var r := Insert(x, s[1..]);
      assert r[0] == x || r[0] == s[1];
      assert forall j :: 0 <= j < |r| ==> r[0].network <= r[j].network;
    }
  }

  /** The result is sorted by network address and is a permutation of the input. */
  lemma {:induction false} SortSorted(s: seq<Prefix>)
    ensures SortedByNetwork(SortByNetwork(s))
    ensures multiset(SortByNetwork(s)) == multiset(s)
  {
    if |s| > 0 {
      SortSorted(s[1..]);
      InsertSorted(s[0], SortByNetwork(s[1..]));
      InsertPermutes(s[0], SortByNetwork(s[1..]));
      assert s == [s[0]] + s[1..];
    }
  }

  lemma SortMembers(s: seq<Prefix>)
    ensures |SortByNetwork(s)| == |s|
    ensures forall p :: p in SortByNetwork(s) <==> p in s
  {
    SortSorted(s);
    assert |multiset(SortByNetwork(s))| == |multiset(s)|;
    forall p
      ensures p in SortByNetwork(s) <==> p in s
    {
      assert p in SortByNetwork(s) <==> p in multiset(SortByNetwork(s));
      assert p in s <==> p in multiset(s);
    }
  }

  lemma {:induction false} InsertStable(x: Prefix, s: seq<Prefix>, key: nat)
    requires SortedByNetwork(s)
    ensures WithNetwork(Insert(x, s), key) == WithNetwork([x] + s, key)
  {
    if |s| > 0 && x.network > s[0].network {
      InsertStable(x, s[1..], key);
      assert ([x] + s)[1..] == s;
      assert ([x] + s[1..])[1..] == s[1..];
      if x.network == key {
        assert s[0].network != key;
      }
    }
  }

  /** Stability: for every network address, the networks with that address keep their order. */
  lemma {:induction false} SortStable(s: seq<Prefix>, key: nat)
    ensures WithNetwork(SortByNetwork(s), key) == WithNetwork(s, key)
  {
    if |s| > 0 {
      SortStable(s[1..], key);
      SortSorted(s[1..]);
      InsertStable(s[0], SortByNetwork(s[1..]), key);
      var t := SortByNetwork(s[1..]);
      assert ([s[0]] + t)[1..] == t;
    }
  }
}
