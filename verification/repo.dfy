/**
 * The generic repository `Repo<T>` the route handlers delegate to, over one
 * table held as a sequence and a function giving each row's primary key.
 * The SQL store behind it is not part of this model: whether it accepts a
 * write (no backend failure, no other constraint violated) is the parameter
 * `accepted`, and a write also fails when the primary key makes it impossible.
 */
module Repo {
  import opened Wrappers
  import Seqs

  /** The boolean a write returns and the table after it. */
  datatype Write<T> = Write(ok: bool, table: seq<T>)

  /** Some row of `t` has key `id`. */
  predicate HasKey<T>(t: seq<T>, key: T -> int, id: int) {
    exists i :: 0 <= i < |t| && key(t[i]) == id
  }

  /** No two rows of `t` share a key. */
  predicate KeysDistinct<T>(t: seq<T>, key: T -> int) {
    forall i, j :: 0 <= i < j < |t| ==> key(t[i]) != key(t[j])
  }

  /** The position of the first row with key `id`. */
  function IndexOf<T>(t: seq<T>, key: T -> int, id: int): (r: Option<nat>)
    ensures r.Some? ==> r.value < |t| && key(t[r.value]) == id
    ensures r.Some? ==> forall j :: 0 <= j < r.value ==> key(t[j]) != id
    ensures r.None? <==> !HasKey(t, key, id)
  {
    if |t| == 0 then None
    else if key(t[0]) == id then Some(0)
    else match IndexOf(t[1..], key, id)
      case None => None
      case Some(k) => Some(k + 1)
  }

  /** `get(id)`: the row with key `id`, if any. */
  function Get<T>(t: seq<T>, key: T -> int, id: int): (r: Option<T>)
    ensures r.None? <==> !HasKey(t, key, id)
    ensures r.Some? ==> key(r.value) == id
    ensures r.Some? ==> exists i :: 0 <= i < |t| && t[i] == r.value
  {
    match IndexOf(t, key, id)
    case None => None
    case Some(i) => Some(t[i])
  }

  /** With distinct keys, the row `get` returns is the one at any position holding that key. */
  lemma GetUnique<T>(t: seq<T>, key: T -> int, i: int)
    requires KeysDistinct(t, key)
    requires 0 <= i < |t|
    ensures Get(t, key, key(t[i])) == Some(t[i])
  {
  }

  /** `add(value)`: appends `v`, whose key the store has already assigned. */
  function Add<T>(t: seq<T>, key: T -> int, v: T, accepted: bool): (w: Write<T>)
    ensures w.ok <==> accepted && !HasKey(t, key, key(v))
    ensures w.ok ==> |w.table| == |t| + 1 && w.table[|t|] == v
    ensures forall i :: 0 <= i < |t| ==> i < |w.table| && w.table[i] == t[i]
    ensures !w.ok ==> |w.table| == |t|
    ensures KeysDistinct(t, key) ==> KeysDistinct(w.table, key)
  {
    if accepted && !HasKey(t, key, key(v)) then Write(true, t + [v]) else Write(false, t)
  }

  /** `update(id, value)`: the row with key `id` becomes `v`, which keeps that key. */
  function Update<T>(t: seq<T>, key: T -> int, id: int, v: T, accepted: bool): (w: Write<T>)
    requires key(v) == id
    ensures w.ok <==> accepted && HasKey(t, key, id)
    ensures |w.table| == |t|
    ensures forall i :: 0 <= i < |t| && key(t[i]) != id ==> w.table[i] == t[i]
    ensures forall i :: 0 <= i < |t| && key(t[i]) == id ==> w.table[i] == (if w.ok then v else t[i])
    ensures forall i :: 0 <= i < |t| ==> key(w.table[i]) == key(t[i])
    ensures KeysDistinct(t, key) ==> KeysDistinct(w.table, key)
  {
    if accepted && HasKey(t, key, id) then
      Write(true, seq(|t|, i requires 0 <= i < |t| => if key(t[i]) == id then v else t[i]))
    else
      Write(false, t)
  }

  /** `delete(id)`: removes the rows with key `id`, keeping the others in order. */
  function Delete<T>(t: seq<T>, key: T -> int, id: int, accepted: bool): (w: Write<T>)
    ensures w.ok <==> accepted && HasKey(t, key, id)
    ensures w.ok ==> !HasKey(w.table, key, id)
    ensures forall i :: 0 <= i < |t| && key(t[i]) != id ==> t[i] in w.table
    ensures forall x :: x in w.table ==> x in t
    ensures !w.ok ==> w.table == t
    ensures w.ok ==> w.table == Seqs.Filter(t, x => key(x) != id)
    ensures KeysDistinct(t, key) ==> KeysDistinct(w.table, key)
  {
    if accepted && HasKey(t, key, id) then
      var rest := Seqs.Filter(t, x => key(x) != id);
      FilterKeepsDistinct(t, key, id);
      Write(true, rest)
    else
      Write(false, t)
  }

  /** Removing rows by key keeps the remaining keys distinct. */
  lemma {:induction false} FilterKeepsDistinct<T>(t: seq<T>, key: T -> int, id: int)
    ensures KeysDistinct(t, key) ==> KeysDistinct(Seqs.Filter(t, x => key(x) != id), key)
    decreases |t|
  {
    if |t| > 0 && KeysDistinct(t, key) {
      var init := t[..|t| - 1];
      assert KeysDistinct(init, key);
      FilterKeepsDistinct(init, key, id);
      var r := Seqs.Filter(t, x => key(x) != id);
      var r0 := Seqs.Filter(init, x => key(x) != id);
      forall i | 0 <= i < |r0|
        ensures key(r0[i]) != key(t[|t| - 1])
      {
        assert r0[i] in init;
        var j :| 0 <= j < |init| && init[j] == r0[i];
      }
    }
  }

  /** With distinct keys, a successful delete removes exactly one row. */
  lemma {:induction false} DeleteRemovesOne<T>(t: seq<T>, key: T -> int, id: int, accepted: bool)
    requires KeysDistinct(t, key)
    ensures Delete(t, key, id, accepted).ok ==> |Delete(t, key, id, accepted).table| == |t| - 1
  {
    if accepted && HasKey(t, key, id) {
      var k := IndexOf(t, key, id).value;
      FilterCount(t, key, id, k);
    }
  }

  /** Filtering out key `id` from a table holding it exactly once, at `k`, drops one row. */
  lemma {:induction false} FilterCount<T>(t: seq<T>, key: T -> int, id: int, k: nat)
    requires k < |t| && key(t[k]) == id
    requires forall j :: 0 <= j < |t| && j != k ==> key(t[j]) != id
    ensures |Seqs.Filter(t, x => key(x) != id)| == |t| - 1
    decreases |t|
  {
    var init := t[..|t| - 1];
    if k == |t| - 1 {
      FilterAll(init, key, id);
    } else {
      FilterCount(init, key, id, k);
    }
  }

  /** Filtering out a key no row holds keeps every row. */
  lemma {:induction false} FilterAll<T>(t: seq<T>, key: T -> int, id: int)
    requires forall j :: 0 <= j < |t| ==> key(t[j]) != id
    ensures |Seqs.Filter(t, x => key(x) != id)| == |t|
    decreases |t|
  {
    if |t| > 0 {
      FilterAll(t[..|t| - 1], key, id);
    }
  }
}
