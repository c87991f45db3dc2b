/**
 * The `Headers` tables the runtime keeps for request headers and server
 * variables. Their class is not part of this model; what the runtime uses of
 * it is `set` (one value per name, replacing any earlier ones), `get` (the
 * value stored under a name) and `raw()` (every name, in insertion order, with
 * its list of values). Names are compared as they are given: nothing here
 * lower-cases them.
 */
module HeaderTable {
  import opened Wrappers

  /** One name with its values. */
  datatype Entry = Entry(name: string, values: seq<string>)

  /** The entries in insertion order. */
  type Table = seq<Entry>

  /** No name appears twice. */
  predicate Distinct(t: Table) {
    forall i, j :: 0 <= i < j < |t| ==> t[i].name != t[j].name
  }

  /** The names of a table, in order. */
  function Names(t: Table): (r: seq<string>)
    ensures |r| == |t|
    ensures forall i :: 0 <= i < |t| ==> r[i] == t[i].name
  {
    seq(|t|, i requires 0 <= i < |t| => t[i].name)
  }

  /** The position of the first entry named `k`, or -1. */
  function Find(t: Table, k: string): (r: int)
    ensures -1 <= r < |t|
    ensures 0 <= r ==> t[r].name == k && forall i :: 0 <= i < r ==> t[i].name != k
    ensures r < 0 ==> forall i :: 0 <= i < |t| ==> t[i].name != k
  {
    if t == [] then -1
    else if t[0].name == k then 0
    else
      var r := Find(t[1..], k);
      if r < 0 then -1 else r + 1
  }

  /** `get(k)`: the first value stored under `k`, or `None` (undefined). */
  function Lookup(t: Table, k: string): Option<string> {
    var i := Find(t, k);
    if i < 0 || |t[i].values| == 0 then None else Some(t[i].values[0])
  }

  /**
   * `set(k, v)`: `k` now holds exactly `[v]`; an existing name keeps its place,
   * a new one is appended.
   */
  function Put(t: Table, k: string, v: string): (r: Table)
    ensures |r| == |t| || |r| == |t| + 1
  {
    var i := Find(t, k);
    if i < 0 then t + [Entry(k, [v])] else t[i := Entry(k, [v])]
  }

  /** The first entry named `k` is identified by its name and by no earlier entry having it. */
  lemma FindIs(t: Table, k: string, i: int)
    requires 0 <= i < |t| && t[i].name == k
    requires forall j :: 0 <= j < i ==> t[j].name != k
    ensures Find(t, k) == i
  {
  }

  /** After `set(k, v)`, `get(k)` is `v`, every other name reads as before, and no name is duplicated. */
  lemma PutLookup(t: Table, k: string, v: string)
    ensures Lookup(Put(t, k, v), k) == Some(v)
    ensures forall k' :: k' != k ==> Lookup(Put(t, k, v), k') == Lookup(t, k')
    ensures Distinct(t) ==> Distinct(Put(t, k, v))
  {
    var r := Put(t, k, v);
    var i := Find(t, k);
    forall k' | k' != k
      ensures Lookup(r, k') == Lookup(t, k')
    {
      FindPut(t, k, v, k');
    }
    if i < 0 {
      FindIs(r, k, |t|);
    } else {
      FindIs(r, k, i);
    }
  }

  /** Putting `k` moves no other name. */
  lemma FindPut(t: Table, k: string, v: string, k': string)
    requires k' != k
    ensures Find(Put(t, k, v), k') == Find(t, k')
  {
    var r := Put(t, k, v);
    var j := Find(t, k');
    assert forall i :: 0 <= i < |t| ==> r[i].name == t[i].name;
    if j >= 0 {
      FindIs(r, k', j);
    }
  }

  /** `set` keeps the order of the names already present and appends a new one at the end. */
  lemma PutNames(t: Table, k: string, v: string)
    ensures k in Names(t) ==> Names(Put(t, k, v)) == Names(t)
    ensures k !in Names(t) ==> Names(Put(t, k, v)) == Names(t) + [k]
  {
    var i := Find(t, k);
    if k in Names(t) {
      var j :| 0 <= j < |t| && Names(t)[j] == k;
      assert t[j].name == k;
    }
  }

  /** A name is present exactly when `get` finds a value under it, for a table built by `set`. */
  predicate SetBuilt(t: Table) {
    Distinct(t) && forall i :: 0 <= i < |t| ==> |t[i].values| == 1
  }

  /** The tables `set` builds from an empty one. */
  lemma PutSetBuilt(t: Table, k: string, v: string)
    requires SetBuilt(t)
    ensures SetBuilt(Put(t, k, v))
  {
    PutLookup(t, k, v);
  }

  /** In a table built by `set`, `get` finds a value exactly under the names present. */
  lemma LookupPresent(t: Table, k: string)
    requires SetBuilt(t)
    ensures Lookup(t, k).Some? <==> k in Names(t)
  {
    if k in Names(t) {
      var j :| 0 <= j < |t| && Names(t)[j] == k;
      assert t[j].name == k;
    }
  }

  /** `set` applied to each pair in turn. */
  function PutAll(t: Table, pairs: seq<(string, string)>): Table {
    if pairs == [] then t
    else
      var last := pairs[|pairs| - 1];
      Put(PutAll(t, pairs[..|pairs| - 1]), last.0, last.1)
  }

  /** One more pair is one more `set`. */
  lemma PutAllSnoc(t: Table, pairs: seq<(string, string)>, p: (string, string))
    ensures PutAll(t, pairs + [p]) == Put(PutAll(t, pairs), p.0, p.1)
  {
    assert (pairs + [p])[..|pairs|] == pairs;
  }

  /** Pair `i` is `(k, v)` and no later pair is named `k`. */
  predicate LastPairAt(pairs: seq<(string, string)>, k: string, v: string, i: int) {
    0 <= i < |pairs| && pairs[i] == (k, v) && forall j :: i < j < |pairs| ==> pairs[j].0 != k
  }

  /** The value of the last pair named `k`, if any pair has that name. */
  function LastValue(pairs: seq<(string, string)>, k: string): (r: Option<string>)
    ensures r.None? <==> forall i :: 0 <= i < |pairs| ==> pairs[i].0 != k
    ensures r.Some? ==> exists i :: LastPairAt(pairs, k, r.value, i)
  {
    if pairs == [] then None
    else
      var n := |pairs| - 1;
      if pairs[n].0 == k then
        assert LastPairAt(pairs, k, pairs[n].1, n);
        Some(pairs[n].1)
      else
        var front := pairs[..n];
        var r := LastValue(front, k);
        assert forall i :: 0 <= i < n ==> front[i] == pairs[i];
        LastValueFront(pairs, front, k, r);
        r
  }

  /** A last pair of all but the final pair stays last when the final pair has another name. */
  lemma LastValueFront(pairs: seq<(string, string)>, front: seq<(string, string)>, k: string, r: Option<string>)
    requires pairs != [] && front == pairs[..|pairs| - 1] && pairs[|pairs| - 1].0 != k
    requires r.Some? ==> exists i :: LastPairAt(front, k, r.value, i)
    ensures r.Some? ==> exists i :: LastPairAt(pairs, k, r.value, i)
  {
    if r.Some? {
      var i :| LastPairAt(front, k, r.value, i);
      assert LastPairAt(pairs, k, r.value, i);
    }
  }

  /** After setting every pair in turn, a name reads as its last pair's value, or as before when no pair has it. */
  lemma {:induction false} PutAllLookup(t: Table, pairs: seq<(string, string)>, k: string)
    ensures Lookup(PutAll(t, pairs), k) == (if LastValue(pairs, k).Some? then LastValue(pairs, k) else Lookup(t, k))
  {
    if pairs != [] {
      var n := |pairs| - 1;
      PutAllLookup(t, pairs[..n], k);
      PutLookup(PutAll(t, pairs[..n]), pairs[n].0, pairs[n].1);
    }
  }

  /** Setting pairs into a table built by `set` gives one built by `set`. */
  lemma {:induction false} PutAllSetBuilt(t: Table, pairs: seq<(string, string)>)
    requires SetBuilt(t)
    ensures SetBuilt(PutAll(t, pairs))
  {
    if pairs != [] {
      var n := |pairs| - 1;
      PutAllSetBuilt(t, pairs[..n]);
      PutSetBuilt(PutAll(t, pairs[..n]), pairs[n].0, pairs[n].1);
    }
  }

  /** A request-header or server-variable table (`class Headers`). */
  class Headers {
    var table: Table

    /** `new Headers()`: an empty table. */
    constructor()
      ensures table == []
    {
      table := [];
    }

    /** `set(k, v)`. */
    method Set(k: string, v: string)
      modifies this
      ensures table == Put(old(table), k, v)
    {
      table := Put(table, k, v);
    }

    /** Entry `i` is the first one named `k`, and it holds a value. */
    static predicate FirstWithValue(t: Table, k: string, i: int) {
      && 0 <= i < |t|
      && t[i].name == k
      && |t[i].values| > 0
      && forall j :: 0 <= j < i ==> t[j].name != k
    }

    /** `get(k)`: the first value of `k`, and none when no entry names `k` or it has no value. */
    function Get(k: string): (r: Option<string>)
      reads this
      ensures r.Some? ==> exists i :: FirstWithValue(table, k, i) && r.value == table[i].values[0]
      ensures forall i :: FirstWithValue(table, k, i) ==> r == Some(table[i].values[0])
      ensures (forall i :: 0 <= i < |table| ==> table[i].name != k) ==> r.None?
    {
      Lookup(table, k)
    }

    /** `raw()`: every name with its values, in insertion order, as the table holds them. */
    function Raw(): (r: Table)
      reads this
      ensures r == table
    {
      table
    }
  }
}
