/** Counting keys in the order they first appear, as a dictionary of counters does. */
module Tallies {

  function FirstSeen(keys: seq<int>): seq<int> {
    if keys == [] then [] else
      var before := FirstSeen(keys[..|keys| - 1]);
      var k := keys[|keys| - 1];
      if k in before then before else before + [k]
  }

  function CountOf(keys: seq<int>, k: int): nat {
    multiset(keys)[k]
  }

  /** How often each key occurs, in the order of FirstSeen. */
  function Tally(keys: seq<int>): (counts: seq<nat>)
    ensures |counts| == |FirstSeen(keys)|
  {
    var order := FirstSeen(keys);
    seq(|order|, i requires 0 <= i < |order| => CountOf(keys, order[i]))
  }

  function CountTotal(counts: seq<nat>): nat {
    if counts == [] then 0 else CountTotal(counts[..|counts| - 1]) + counts[|counts| - 1]
  }

  lemma CountSnoc(keys: seq<int>, k: int)
    ensures multiset(keys + [k]) == multiset(keys)[k := multiset(keys)[k] + 1]
  {
  }

  /** Every key is listed, and only once. */
  lemma {:induction false} FirstSeenIsExact(keys: seq<int>)
    ensures forall k :: k in FirstSeen(keys) <==> k in keys
    ensures forall i, j :: 0 <= i < j < |FirstSeen(keys)| ==> FirstSeen(keys)[i] != FirstSeen(keys)[j]
  {
    if keys != [] {
      var n := |keys| - 1;
      FirstSeenIsExact(keys[..n]);
      assert keys == keys[..n] + [keys[n]];
    }
  }

  lemma {:induction false} TotalUpdate(counts: seq<nat>, i: nat, v: nat)
    requires i < |counts|
    ensures CountTotal(counts[i := v]) == CountTotal(counts) - counts[i] + v
  {
    var n := |counts| - 1;
    if i == n {
      assert counts[i := v][..n] == counts[..n];
    } else {
      TotalUpdate(counts[..n], i, v);
      assert counts[i := v][..n] == counts[..n][i := v];
    }
  }

  /** One more key adds one to its counter, or opens a new one. */
  lemma TallySnoc(keys: seq<int>, k: int)
    ensures k !in keys ==> Tally(keys + [k]) == Tally(keys) + [1]
    ensures k in keys ==> exists i :: 0 <= i < |Tally(keys)|
                                      && Tally(keys + [k]) == Tally(keys)[i := Tally(keys)[i] + 1]
  {
    FirstSeenIsExact(keys);
    CountSnoc(keys, k);
    assert (keys + [k])[..|keys|] == keys;
    var order := FirstSeen(keys);
    if k in keys {
      var i :| 0 <= i < |order| && order[i] == k;
      assert Tally(keys + [k]) == Tally(keys)[i := Tally(keys)[i] + 1];
    } else {
      assert multiset(keys)[k] == 0;
      assert Tally(keys + [k]) == Tally(keys) + [1];
    }
  }

  lemma TotalSnoc(counts: seq<nat>, v: nat)
    ensures CountTotal(counts + [v]) == CountTotal(counts) + v
  {
    assert (counts + [v])[..|counts|] == counts;
  }

  /** One more key makes the total one more. */
  lemma TallyGrows(keys: seq<int>, k: int)
    ensures CountTotal(Tally(keys + [k])) == CountTotal(Tally(keys)) + 1
  {
    TallySnoc(keys, k);
    var t := Tally(keys);
    hide Tally, CountTotal;
    if k in keys {
      var i :| 0 <= i < |t| && Tally(keys + [k]) == t[i := t[i] + 1];
      TotalUpdate(t, i, t[i] + 1);
    } else {
      TotalSnoc(t, 1);
    }
  }

  /** The counters add up to the number of keys. */
  lemma {:induction false} TallyTotal(keys: seq<int>)
    ensures CountTotal(Tally(keys)) == |keys|
  {
    if keys != [] {
      var n := |keys| - 1;
      TallyTotal(keys[..n]);
      hide Tally, CountTotal;
      TallyGrows(keys[..n], keys[n]);
      assert keys == keys[..n] + [keys[n]];
    }
  }

  /** A part of the keys counts no more of any key, and every key of the part has a counter. */
  lemma TallySuffix(a: seq<int>, b: seq<int>, i: nat)
    requires i < |Tally(b)|
    ensures exists j :: 0 <= j < |Tally(a + b)| && Tally(b)[i] <= Tally(a + b)[j]
  {
    var k := FirstSeen(b)[i];
    FirstSeenIsExact(b);
    FirstSeenIsExact(a + b);
    assert k in FirstSeen(b);
    assert multiset(a + b) == multiset(a) + multiset(b);
    assert k in a + b;
    assert k in FirstSeen(a + b);
    var j :| 0 <= j < |FirstSeen(a + b)| && FirstSeen(a + b)[j] == k;
    assert Tally(b)[i] <= Tally(a + b)[j];
  }

  // ---------------------------------------------------------------- the dictionary

  /** A dictionary of counters and its keys in insertion order. */
  datatype Counter = Counter(order: seq<int>, counts: map<int, nat>)

  /** counts[k] += 1, where a missing counter starts at 0. */
  function Bump(c: Counter, k: int): Counter {
    if k in c.counts then c.(counts := c.counts[k := c.counts[k] + 1])
    else Counter(c.order + [k], c.counts[k := 1])
  }

  /** The dictionary holds exactly the counts of these keys. */
  ghost predicate Holds(c: Counter, keys: seq<int>) {
    && c.order == FirstSeen(keys)
    && (forall k :: k in c.counts <==> k in keys)
    && forall k :: k in c.counts ==> c.counts[k] == CountOf(keys, k)
  }

  lemma {:induction false} FirstSeenSnoc(keys: seq<int>, k: int)
    ensures FirstSeen(keys + [k]) == if k in keys then FirstSeen(keys) else FirstSeen(keys) + [k]
  {
    FirstSeenIsExact(keys);
    assert (keys + [k])[..|keys|] == keys;
  }

  lemma BumpHolds(c: Counter, keys: seq<int>, k: int)
    requires Holds(c, keys)
    ensures Holds(Bump(c, k), keys + [k])
  {
    FirstSeenSnoc(keys, k);
    CountSnoc(keys, k);
    hide FirstSeen;
    assert k !in keys ==> multiset(keys)[k] == 0;
  }

  /** The counters in insertion order. */
  function Values(c: Counter): (v: seq<nat>)
    requires forall i :: 0 <= i < |c.order| ==> c.order[i] in c.counts
  {
    seq(|c.order|, i requires 0 <= i < |c.order| => c.counts[c.order[i]])
  }

  lemma ValuesAreTally(c: Counter, keys: seq<int>)
    requires Holds(c, keys)
    ensures forall i :: 0 <= i < |c.order| ==> c.order[i] in c.counts
    ensures Values(c) == Tally(keys)
  {
    FirstSeenIsExact(keys);
    forall i | 0 <= i < |c.order| ensures c.order[i] in c.counts {
      var k := c.order[i];
      assert k in FirstSeen(keys);
      assert k in keys;
    }
  }
}
