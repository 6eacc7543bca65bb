/** An ordered dictionary (`QMap<int, V>`) as the list of its entries by ascending key. */
module QtMap {

  datatype Entry<V> = Entry(key: int, value: V)

  type OrderedMap<V> = seq<Entry<V>>

  predicate Ascending<V>(m: OrderedMap<V>) {
    forall i, j | 0 <= i < j < |m| :: m[i].key < m[j].key
  }

  ghost function Keys<V>(m: OrderedMap<V>): (ks: set<int>)
  {
    set i | 0 <= i < |m| :: m[i].key
  }

  /** The number of entries with a smaller key. */
  function Position<V>(m: OrderedMap<V>, k: int): (i: nat)
    ensures i <= |m|
  {
    if m == [] || m[0].key >= k then 0 else 1 + Position(m[1..], k)
  }

  lemma {:induction false} PositionMeaning<V>(m: OrderedMap<V>, k: int)
    ensures forall j | 0 <= j < Position(m, k) :: m[j].key < k
    ensures Position(m, k) < |m| ==> m[Position(m, k)].key >= k
  {
    if m != [] && m[0].key < k {
      PositionMeaning(m[1..], k);
      assert forall j | 1 <= j < Position(m, k) :: m[j] == m[1..][j - 1];
    }
  }

  predicate Contains<V>(m: OrderedMap<V>, k: int) {
    var i := Position(m, k);
    i < |m| && m[i].key == k
  }

  function Lookup<V>(m: OrderedMap<V>, k: int): V
    requires Contains(m, k)
  {
    m[Position(m, k)].value
  }

  /** `insert`: a present key gets the new value. */
  function Insert<V>(m: OrderedMap<V>, k: int, v: V): OrderedMap<V> {
    var i := Position(m, k);
    m[..i] + [Entry(k, v)] + m[if Contains(m, k) then i + 1 else i..]
  }

  function Values<V>(m: OrderedMap<V>): (vs: seq<V>)
    ensures |vs| == |m|
    ensures forall i | 0 <= i < |m| :: vs[i] == m[i].value
  {
    seq(|m|, i requires 0 <= i < |m| => m[i].value)
  }

  lemma {:induction false} ContainsIsMembership<V>(m: OrderedMap<V>, k: int)
    requires Ascending(m)
    ensures Contains(m, k) <==> exists i :: 0 <= i < |m| && m[i].key == k
  {
    var p := Position(m, k);
    PositionMeaning(m, k);
    if i :| 0 <= i < |m| && m[i].key == k {
      assert p <= i;
      assert p < i ==> m[p].key < m[i].key;
    }
  }

  /** The position of an entry is the number of smaller keys. */
  lemma {:induction false} PositionIsUnique<V>(m: OrderedMap<V>, k: int, i: int)
    requires Ascending(m) && 0 <= i <= |m|
    requires i > 0 ==> m[i - 1].key < k
    requires i < |m| ==> m[i].key >= k
    ensures Position(m, k) == i
  {
    PositionMeaning(m, k);
    assert forall j | 0 <= j < i :: m[j].key <= m[i - 1].key;
  }

  lemma {:induction false} InsertShape<V>(m: OrderedMap<V>, k: int, v: V)
    requires Ascending(m) && !Contains(m, k)
    ensures var i := Position(m, k);
            && Insert(m, k, v) == m[..i] + [Entry(k, v)] + m[i..]
            && Ascending(Insert(m, k, v))
            && Position(Insert(m, k, v), k) == i
  {
    var i, n := Position(m, k), Insert(m, k, v);
    PositionMeaning(m, k);
    assert i < |m| ==> m[i].key > k;
    assert n[i] == Entry(k, v);
    PositionIsUnique(n, k, i);
  }

  /** A new key is added, every other key keeps its value. */
  lemma {:induction false} InsertFresh<V>(m: OrderedMap<V>, k: int, v: V, j: int)
    requires Ascending(m) && !Contains(m, k)
    ensures Ascending(Insert(m, k, v))
    ensures Contains(Insert(m, k, v), j) <==> Contains(m, j) || j == k
    ensures Contains(m, j) ==> Lookup(Insert(m, k, v), j) == Lookup(m, j)
    ensures Contains(Insert(m, k, v), k) && Lookup(Insert(m, k, v), k) == v
  {
    var i, n := Position(m, k), Insert(m, k, v);
    InsertShape(m, k, v);
    assert n[i] == Entry(k, v);
    if Contains(m, j) {
      var q := Position(m, j);
      var r := if q < i then q else q + 1;
      assert n[r] == m[q];
      PositionIsUnique(n, j, r);
    } else if Contains(n, j) && j != k {
      var r := Position(n, j);
      assert n[r] == m[if r < i then r else r - 1];
      ContainsIsMembership(m, j);
    }
  }
}
