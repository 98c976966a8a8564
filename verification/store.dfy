/** The repository collaborator (`IRepository<T>` and its user-store extension) as an immutable
    value. Rows are keyed by an identity column: ids are handed out from `nextId` upwards, one
    per insertion, and are never reused. `order` lists the stored ids in the order `GetAll`
    enumerates them, which is ascending id order (a clustered primary-key scan). */
module EntityStore {
  import opened Results

  /** Strictly increasing, hence also free of duplicates. */
  predicate Ascending(xs: seq<int>)
  {
    forall i, j | 0 <= i < j < |xs| :: xs[i] < xs[j]
  }

  datatype Store<T> = Store(rows: map<int, T>, order: seq<int>, nextId: int)
  {
    /** The representation invariant every repository state satisfies. */
    ghost predicate Valid()
    {
      && 1 <= nextId
      && Ascending(order)
      && (forall k :: k in rows <==> k in order)
      && (forall k | k in rows :: 1 <= k < nextId)
    }
  }

  /** `GetById`: the row stored under `id`, or nothing. */
  function Get<T>(s: Store<T>, id: int): Option<T>
  {
    if id in s.rows then Some(s.rows[id]) else None
  }

  /** `GetAll`: every stored row, once each, in enumeration order. */
  function All<T>(s: Store<T>): (xs: seq<T>)
    requires s.Valid()
    ensures |xs| == |s.order| == |s.rows|
    ensures forall i | 0 <= i < |xs| :: s.order[i] in s.rows && xs[i] == s.rows[s.order[i]]
    ensures forall k | k in s.rows :: s.rows[k] in xs
  {
    AscendingCardinality(s.order);
    assert s.rows.Keys == set k | k in s.order by {
      forall k ensures k in s.rows.Keys <==> k in (set k | k in s.order) { }
    }
    var xs := seq(|s.order|, i requires 0 <= i < |s.order| => s.rows[s.order[i]]);
    assert forall k | k in s.rows :: s.rows[k] in xs by {
      forall k | k in s.rows
        ensures s.rows[k] in xs
      {
        var i :| 0 <= i < |s.order| && s.order[i] == k;
        assert xs[i] == s.rows[k];
      }
    }
    xs
  }

  /** `Add`: stores `x` under the next identity value. */
  function Add<T>(s: Store<T>, x: T): (s': Store<T>)
    requires s.Valid()
    ensures s'.Valid()
    ensures s.nextId !in s.rows
    ensures s'.rows.Keys == s.rows.Keys + {s.nextId}
    ensures forall k | k in s.rows :: s'.rows[k] == s.rows[k]
    ensures s'.rows[s.nextId] == x
  {
    assert forall y | y in s.order :: y < s.nextId;
    AscendingSnoc(s.order, s.nextId);
    Store(s.rows[s.nextId := x], s.order + [s.nextId], s.nextId + 1)
  }

  /** `Update`: replaces the row stored under an existing `id`. */
  function Update<T>(s: Store<T>, id: int, x: T): (s': Store<T>)
    requires s.Valid()
    requires id in s.rows
    ensures s'.Valid()
    ensures s'.rows.Keys == s.rows.Keys
    ensures forall k | k in s.rows && k != id :: s'.rows[k] == s.rows[k]
    ensures s'.rows[id] == x
  {
    Store(s.rows[id := x], s.order, s.nextId)
  }

  /** `Delete`: removes the row stored under an existing `id`. */
  function Delete<T>(s: Store<T>, id: int): (s': Store<T>)
    requires s.Valid()
    requires id in s.rows
    ensures s'.Valid()
    ensures s'.rows.Keys == s.rows.Keys - {id}
    ensures forall k | k in s'.rows :: s'.rows[k] == s.rows[k]
  {
    Store(s.rows - {id}, Remove(s.order, id), s.nextId)
  }

  /** `xs` without `x`, every other element kept in its place. */
  function Remove(xs: seq<int>, x: int): (r: seq<int>)
    ensures forall y :: y in r <==> y in xs && y != x
    ensures Ascending(xs) ==> Ascending(r)
    ensures |r| <= |xs|
  {
    if xs == [] then []
    else if xs[0] == x then Remove(xs[1..], x)
    else
      var rest := Remove(xs[1..], x);
      if Ascending(xs) then
        assert Ascending(xs[1..]);
        forall y | y in rest ensures xs[0] < y {
          var j :| 1 <= j < |xs| && xs[j] == y;
        }
        AscendingCons(xs[0], rest);
        [xs[0]] + rest
      else
        [xs[0]] + rest
  }

  /** The least stored id whose row satisfies `p`, if there is one: a `FirstOrDefault` over
      the rows in enumeration order. */
  function FindKey<T>(s: Store<T>, p: T -> bool): (r: Option<int>)
    requires s.Valid()
    ensures r.Some? ==> r.value in s.rows && p(s.rows[r.value])
    ensures r.Some? ==> forall k | k in s.rows && k < r.value :: !p(s.rows[k])
    ensures r.None? <==> forall k | k in s.rows :: !p(s.rows[k])
  {
    assert forall i | 0 <= i < |s.order| :: s.order[i] in s.order;
    FindIn(s.rows, s.order, p)
  }

  function FindIn<T>(rows: map<int, T>, ids: seq<int>, p: T -> bool): (r: Option<int>)
    requires forall i | 0 <= i < |ids| :: ids[i] in rows
    ensures r.Some? ==> r.value in ids && r.value in rows && p(rows[r.value])
    ensures r.Some? && Ascending(ids) ==> forall k | k in ids && k < r.value :: !p(rows[k])
    ensures r.None? ==> forall k | k in ids :: !p(rows[k])
  {
    if ids == [] then None
    else if p(rows[ids[0]]) then Some(ids[0])
    else
      var r := FindIn(rows, ids[1..], p);
      assert forall k | k in ids :: k == ids[0] || k in ids[1..];
      r
  }

  lemma AscendingCons(x: int, ys: seq<int>)
    requires Ascending(ys)
    requires forall y | y in ys :: x < y
    ensures Ascending([x] + ys)
  {
    var xs := [x] + ys;
    forall i, j | 0 <= i < j < |xs| ensures xs[i] < xs[j] {
      assert xs[j] == ys[j - 1] && ys[j - 1] in ys;
      if i > 0 { assert xs[i] == ys[i - 1]; }
    }
  }

  lemma AscendingSnoc(xs: seq<int>, x: int)
    requires Ascending(xs)
    requires forall y | y in xs :: y < x
    ensures Ascending(xs + [x])
  {
    var ys := xs + [x];
    forall i, j | 0 <= i < j < |ys| ensures ys[i] < ys[j] {
      assert ys[i] == xs[i] && xs[i] in xs;
      if j < |xs| { assert ys[j] == xs[j]; }
    }
  }

  /** An ascending sequence has as many distinct elements as positions. */
  lemma {:induction false} AscendingCardinality(xs: seq<int>)
    requires Ascending(xs)
    ensures |set x | x in xs| == |xs|
  {
    if xs != [] {
      var tail := xs[1..];
      assert Ascending(tail);
      AscendingCardinality(tail);
      assert (set x | x in xs) == {xs[0]} + (set x | x in tail);
      assert xs[0] !in (set x | x in tail);
    }
  }
}
