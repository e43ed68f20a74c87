/**
  A Python `dict` from strings to strings, as the reply parser builds it:
  the keys in insertion order beside the key-to-value mapping.  Assigning
  to a key that is already present changes its value and keeps its place;
  a new key goes to the end.
*/
module PyDict {

  datatype Dict = Dict(keys: seq<string>, items: map<string, string>)

  /** The keys are listed once each, and exactly the mapped keys are listed. */
  ghost predicate Valid(d: Dict)
  {
    && (forall i, j | 0 <= i < j < |d.keys| :: d.keys[i] != d.keys[j])
    && (forall k :: k in d.items <==> k in d.keys)
  }

  const Empty: Dict := Dict([], map[])

  /** Python's `d[k] = v`. */
  function Put(d: Dict, k: string, v: string): (r: Dict)
    requires Valid(d)
    ensures Valid(r)
    ensures k in r.items && r.items[k] == v
    ensures forall k' | k' != k :: (k' in r.items <==> k' in d.items)
    ensures forall k' | k' != k && k' in d.items :: r.items[k'] == d.items[k']
    ensures r.keys == if k in d.items then d.keys else d.keys + [k]
  {
    Dict(if k in d.items then d.keys else d.keys + [k], d.items[k := v])
  }

  /** The dictionary built by assigning the pairs of `ps` in order, starting empty. */
  function FromPairs(ps: seq<(string, string)>): (d: Dict)
    ensures Valid(d)
    ensures |d.keys| <= |ps|
    ensures ps != [] ==> d.keys != []
  {
    if ps == [] then Empty
    else
      var last := ps[|ps| - 1];
      Put(FromPairs(ps[..|ps| - 1]), last.0, last.1)
  }

  /** Assigning one more pair is one more `d[k] = v`. */
  lemma FromPairsSnoc(ps: seq<(string, string)>, p: (string, string))
    ensures FromPairs(ps + [p]) == Put(FromPairs(ps), p.0, p.1)
  {
    assert (ps + [p])[..|ps|] == ps;
  }

  /** `k` is the key of some pair of `ps`. */
  predicate HasKey(ps: seq<(string, string)>, k: string)
  {
    exists j | 0 <= j < |ps| :: ps[j].0 == k
  }

  /** The index of the first pair of `ps` whose key is `k`. */
  function FirstIndex(ps: seq<(string, string)>, k: string): (j: nat)
    requires HasKey(ps, k)
    ensures j < |ps| && ps[j].0 == k
    ensures forall j' | 0 <= j' < j :: ps[j'].0 != k
  {
    if ps[0].0 == k then 0
    else
      assert HasKey(ps[1..], k) by {
        var j :| 0 <= j < |ps| && ps[j].0 == k;
        assert ps[1..][j - 1] == ps[j];
      }
      1 + FirstIndex(ps[1..], k)
  }

  /** The keys of `FromPairs(ps)` are exactly the keys of the pairs. */
  lemma {:induction false} FromPairsKeys(ps: seq<(string, string)>, k: string)
    ensures k in FromPairs(ps).items <==> HasKey(ps, k)
  {
    if ps != [] {
      var init := ps[..|ps| - 1];
      FromPairsKeys(init, k);
      if HasKey(init, k) {
        var j :| 0 <= j < |init| && init[j].0 == k;
        assert ps[j] == init[j];
      }
      if HasKey(ps, k) && ps[|ps| - 1].0 != k {
        var j :| 0 <= j < |ps| && ps[j].0 == k;
        assert init[j] == ps[j];
      }
    }
  }

  /** Last write wins: a key's value is the value of the last pair carrying it. */
  lemma {:induction false} FromPairsValue(ps: seq<(string, string)>, j: nat)
    requires j < |ps|
    requires forall j' | j < j' < |ps| :: ps[j'].0 != ps[j].0
    ensures ps[j].0 in FromPairs(ps).items && FromPairs(ps).items[ps[j].0] == ps[j].1
  {
    if j < |ps| - 1 {
      var init := ps[..|ps| - 1];
      assert init[j] == ps[j];
      FromPairsValue(init, j);
    }
  }

  lemma FirstIndexOfPrefix(ps: seq<(string, string)>, n: nat, k: string)
    requires n <= |ps| && HasKey(ps[..n], k)
    ensures HasKey(ps, k) && FirstIndex(ps, k) == FirstIndex(ps[..n], k)
  {
    var m := FirstIndex(ps[..n], k);
    assert ps[m] == ps[..n][m];
    forall f | 0 <= f < m ensures ps[f].0 != k {
      assert ps[..n][f] == ps[f];
    }
  }

  /** Insertion order: the keys are listed in the order of their first appearance in `ps`. */
  lemma {:induction false} FromPairsOrder(ps: seq<(string, string)>, i: nat, j: nat)
    requires i < j < |FromPairs(ps).keys|
    ensures HasKey(ps, FromPairs(ps).keys[i]) && HasKey(ps, FromPairs(ps).keys[j])
    ensures FirstIndex(ps, FromPairs(ps).keys[i]) < FirstIndex(ps, FromPairs(ps).keys[j])
    decreases |ps|, 1
  {
    if j < |FromPairs(ps[..|ps| - 1]).keys| {
      OrderKept(ps, i, j);
    } else {
      OrderNew(ps, i, j);
    }
  }

  /** Two keys listed before the last pair keep their order. */
  lemma {:induction false} OrderKept(ps: seq<(string, string)>, i: nat, j: nat)
    requires i < j < |FromPairs(ps).keys| && j < |FromPairs(ps[..|ps| - 1]).keys|
    ensures HasKey(ps, FromPairs(ps).keys[i]) && HasKey(ps, FromPairs(ps).keys[j])
    ensures FirstIndex(ps, FromPairs(ps).keys[i]) < FirstIndex(ps, FromPairs(ps).keys[j])
    decreases |ps|, 0
  {
    var init := ps[..|ps| - 1];
    var d0 := FromPairs(init);
    var d := FromPairs(ps);
    assert d == Put(d0, ps[|ps| - 1].0, ps[|ps| - 1].1);
    var ki, kj := d.keys[i], d.keys[j];
    assert ki == d0.keys[i] && kj == d0.keys[j];
    OldKey(ps, ki);
    OldKey(ps, kj);
    FromPairsOrder(init, i, j);
  }

  /** A key the last pair adds comes after every key listed before it. */
  lemma OrderNew(ps: seq<(string, string)>, i: nat, j: nat)
    requires i < j < |FromPairs(ps).keys| && |FromPairs(ps[..|ps| - 1]).keys| <= j
    ensures HasKey(ps, FromPairs(ps).keys[i]) && HasKey(ps, FromPairs(ps).keys[j])
    ensures FirstIndex(ps, FromPairs(ps).keys[i]) < FirstIndex(ps, FromPairs(ps).keys[j])
  {
    var init := ps[..|ps| - 1];
    var last := ps[|ps| - 1];
    var d0 := FromPairs(init);
    var d := FromPairs(ps);
    assert d == Put(d0, last.0, last.1);
    var ki, kj := d.keys[i], d.keys[j];
    assert ki == d0.keys[i];
    assert kj == last.0 && last.0 !in d0.items;
    OldKey(ps, ki);
    FromPairsKeys(init, kj);
    NewKey(ps);
  }

  /** A key already listed before the last pair keeps its first index. */
  lemma OldKey(ps: seq<(string, string)>, k: string)
    requires ps != [] && k in FromPairs(ps[..|ps| - 1]).keys
    ensures HasKey(ps[..|ps| - 1], k) && HasKey(ps, k)
    ensures FirstIndex(ps, k) == FirstIndex(ps[..|ps| - 1], k) < |ps| - 1
  {
    FromPairsKeys(ps[..|ps| - 1], k);
    FirstIndexOfPrefix(ps, |ps| - 1, k);
  }

  /** A key the last pair adds first appears in that pair. */
  lemma NewKey(ps: seq<(string, string)>)
    requires ps != [] && !HasKey(ps[..|ps| - 1], ps[|ps| - 1].0)
    ensures HasKey(ps, ps[|ps| - 1].0) && FirstIndex(ps, ps[|ps| - 1].0) == |ps| - 1
  {
    var init := ps[..|ps| - 1];
    var k := ps[|ps| - 1].0;
    forall f | 0 <= f < |ps| - 1 ensures ps[f].0 != k {
      assert init[f] == ps[f];
    }
    assert HasKey(ps, k) by { assert ps[|ps| - 1].0 == k; }
    var j := FirstIndex(ps, k);
    assert ps[j].0 == k;
  }
}
