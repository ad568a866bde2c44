// The fragment of SQL the views are written in: NULL, MAX and GROUP BY.
// A table is a set of rows, a view with GROUP BY key and one MAX column is the
// map from each group's key to that maximum.
module Sql {
  import opened Basics

  type Num = Option<int>

  // MAX skips NULL, and is NULL only when a group holds nothing else: it is the
  // greatest value in the order that puts NULL lowest.
  ghost predicate NotAbove(a: Num, b: Num) {
    a.None? || (b.Some? && a.value <= b.value)
  }

  ghost predicate IsMax(m: Num, s: set<Num>) {
    m in s && forall v | v in s :: NotAbove(v, m)
  }

  lemma {:induction false} MaxExists(s: set<Num>)
    requires s != {}
    ensures exists m :: IsMax(m, s)
    decreases |s|
  {
    var v :| v in s;
    var rest := s - {v};
    if rest == {} {
      assert s == {v};
      assert IsMax(v, s);
    } else {
      MaxExists(rest);
      var m :| IsMax(m, rest);
      var top := if NotAbove(v, m) then m else v;
      assert forall u | u in s :: u == v || u in rest;
      assert IsMax(top, s);
    }
  }

  ghost function Max(s: set<Num>): (m: Num)
    requires s != {}
    ensures IsMax(m, s)
  {
    MaxExists(s);
    var m :| IsMax(m, s);
    m
  }

  // A row with the greatest number.
  lemma {:induction false} GreatestExists<T>(s: set<T>, number: T -> int) returns (top: T)
    requires s != {}
    ensures top in s && forall x | x in s :: number(x) <= number(top)
    decreases |s|
  {
    top :| top in s;
    var rest := s - {top};
    if rest != {} {
      var other := GreatestExists(rest, number);
      top := if number(top) < number(other) then other else top;
    }
  }

  // ---- duplicates ----

  // A join makes one row of each combination of rows it joins: how often each comes out.
  ghost function Bag<J, R>(joined: set<J>, row: J -> R): multiset<R>
    decreases |joined|
  {
    if joined == {} then multiset{}
    else
      var j := Any(joined);
      Bag(joined - {j}, row) + multiset{row(j)}
  }

  ghost function Any<J>(s: set<J>): (j: J)
    requires s != {}
    ensures j in s
  {
    var j :| j in s;
    j
  }

  // When no two combinations make the same row, every row comes out once.
  lemma {:induction false} BagOnce<J, R>(joined: set<J>, row: J -> R)
    requires forall i, j | i in joined && j in joined && row(i) == row(j) :: i == j
    ensures Bag(joined, row) == multiset(set j | j in joined :: row(j))
    decreases |joined|
  {
    var rows := set j | j in joined :: row(j);
    if joined != {} {
      var j := Any(joined);
      var rest := joined - {j};
      BagOnce(rest, row);
      assert rows == (set i | i in rest :: row(i)) + {row(j)};
      assert row(j) !in (set i | i in rest :: row(i));
    }
  }

  // Otherwise some row comes out more than once.
  lemma BagTwice<J, R>(joined: set<J>, row: J -> R, i: J, j: J)
    requires i in joined && j in joined && i != j && row(i) == row(j)
    ensures Bag(joined, row) != multiset(set j | j in joined :: row(j))
  {
    var makers := set k | k in joined && row(k) == row(i);
    BagCounts(joined, row, row(i));
    assert makers == {i, j} + (makers - {i, j});
    assert |{i, j}| == 2;
    assert multiset(set j | j in joined :: row(j))[row(i)] <= 1;
  }

  lemma {:induction false} BagCounts<J, R>(joined: set<J>, row: J -> R, r: R)
    ensures Bag(joined, row)[r] == |set j | j in joined && row(j) == r|
    decreases |joined|
  {
    if joined == {} {
      assert (set j | j in joined && row(j) == r) == {};
    } else {
      var j := Any(joined);
      BagCounts(joined - {j}, row, r);
      var makers, rest := set i | i in joined && row(i) == r, set i | i in joined - {j} && row(i) == r;
      assert makers == if row(j) == r then rest + {j} else rest;
    }
  }

  // The rows of a join that a condition keeps.
  ghost function BagWhere<J, R>(joined: set<J>, row: J -> R, keep: R -> bool): multiset<R> {
    Bag((set j | j in joined && keep(row(j))), row)
  }

  ghost predicate MakesOnce<J, R>(joined: set<J>, row: J -> R, rows: set<R>) {
    && (forall i, j | i in joined && j in joined && row(i) == row(j) :: i == j)
    && (forall r {:trigger Made(joined, row, r)} | r in rows :: Made(joined, row, r))
    && (forall j | j in joined :: row(j) in rows)
  }

  ghost predicate Made<J, R>(joined: set<J>, row: J -> R, r: R) {
    exists j :: j in joined && row(j) == r
  }

  lemma BagWhereOnce<J, R>(joined: set<J>, row: J -> R, rows: set<R>, keep: R -> bool)
    requires MakesOnce(joined, row, rows)
    ensures BagWhere(joined, row, keep) == multiset(set r | r in rows && keep(r))
  {
    var kept := set j | j in joined && keep(row(j));
    BagOnce(kept, row);
    forall r | r in rows && keep(r) ensures r in (set j | j in kept :: row(j)) {
      assert Made(joined, row, r);
    }
    assert (set j | j in kept :: row(j)) == set r | r in rows && keep(r);
  }

  // Parts that share no row put together.
  lemma BothParts<R>(rows: set<R>, keep: R -> bool, also: R -> bool, all: set<R>)
    requires forall r | r in rows :: !(keep(r) && also(r))
    requires forall r :: r in all <==> r in rows && (keep(r) || also(r))
    ensures multiset(set r | r in rows && keep(r)) + multiset(set r | r in rows && also(r)) == multiset(all)
  {
    var a, b := set r | r in rows && keep(r), set r | r in rows && also(r);
    assert a + b == all;
    forall r ensures (multiset(a) + multiset(b))[r] == multiset(all)[r] {}
  }

  ghost function Keys<K>(r: set<(K, Num)>): set<K> {
    set p | p in r :: p.0
  }

  ghost function Values<K>(r: set<(K, Num)>, k: K): set<Num> {
    set p | p in r && p.0 == k :: p.1
  }

  // select k, max(v) from r group by k
  ghost function GroupMax<K>(r: set<(K, Num)>): (m: map<K, Num>)
    ensures m.Keys == Keys(r)
  {
    map k | k in Keys(r) :: GroupValue(r, k)
  }

  ghost function GroupValue<K>(r: set<(K, Num)>, k: K): Num
    requires k in Keys(r)
  {
    var p :| p in r && p.0 == k;
    assert p.1 in Values(r, k);
    Max(Values(r, k))
  }

  // The grouped view has the row (k, v).
  ghost predicate HasRow<K>(view: map<K, Num>, k: K, v: Num) {
    k in view && view[k] == v
  }

  // The grouped view holds (k, v) exactly when v occurs in k's group and nothing
  // in the group exceeds it.
  lemma GroupMaxIs<K>(r: set<(K, Num)>, k: K, v: Num)
    ensures HasRow(GroupMax(r), k, v)
       <==> ((k, v) in r && forall p | p in r && p.0 == k :: NotAbove(p.1, v))
  {
    assert (k, v) in r ==> (k, v).0 in Keys(r);
    if k in GroupMax(r) {
      var m := GroupMax(r)[k];
      assert IsMax(m, Values(r, k));
      assert (k, m) in r by {
        var p :| p in r && p.0 == k && p.1 == m;
        assert p == (k, m);
      }
      forall p | p in r && p.0 == k ensures NotAbove(p.1, m) {
        assert p.1 in Values(r, k);
      }
      if (k, v) in r && forall p | p in r && p.0 == k :: NotAbove(p.1, v) {
        assert NotAbove(m, v) && NotAbove(v, m);
      }
    }
  }

  // The same where no value is NULL.
  lemma GroupMaxOfNumbers<K>(r: set<(K, Num)>, k: K, n: int)
    requires forall p | p in r :: p.1.Some?
    ensures HasRow(GroupMax(r), k, Some(n)) <==> (k, Some(n)) in r && forall i | (k, Some(i)) in r :: i <= n
  {
    GroupMaxIs(r, k, Some(n));
    if HasRow(GroupMax(r), k, Some(n)) {
      forall i | (k, Some(i)) in r ensures i <= n {
        assert NotAbove((k, Some(i)).1, Some(n));
      }
    }
    if forall i | (k, Some(i)) in r :: i <= n {
      forall p | p in r && p.0 == k ensures NotAbove(p.1, Some(n)) {
        assert p == (k, Some(p.1.value));
      }
    }
  }

  // A relation that exceeds another's maximum of a group has another maximum there.
  lemma ExceedsMax<K>(r: set<(K, Num)>, s: set<(K, Num)>, k: K, v: Num, w: Num)
    requires HasRow(GroupMax(s), k, v) && (k, w) in r && !NotAbove(w, v)
    ensures GroupMax(r) != GroupMax(s)
  {
    GroupMaxIs(r, k, v);
    assert (k, w).0 == k && (k, w).1 == w;
  }

  // Some row of s in p's group is at least as large as p.
  ghost predicate Matched<K>(p: (K, Num), s: set<(K, Num)>) {
    exists q :: q in s && q.0 == p.0 && NotAbove(p.1, q.1)
  }

  ghost predicate Dominated<K>(r: set<(K, Num)>, s: set<(K, Num)>) {
    forall p {:trigger Matched(p, s)} | p in r :: Matched(p, s)
  }

  lemma DominatedMax<K>(r: set<(K, Num)>, s: set<(K, Num)>, k: K)
    requires Dominated(r, s) && Dominated(s, r)
    requires k in GroupMax(r)
    ensures k in GroupMax(s) && GroupMax(s)[k] == GroupMax(r)[k]
  {
    var m := GroupMax(r)[k];
    GroupMaxIs(r, k, m);
    assert Matched((k, m), s);
    var q :| q in s && q.0 == (k, m).0 && NotAbove((k, m).1, q.1);
    forall q' | q' in s && q'.0 == k ensures NotAbove(q'.1, m) {
      assert Matched(q', r);
      var p' :| p' in r && p'.0 == q'.0 && NotAbove(q'.1, p'.1);
    }
    assert q == (k, m);
    GroupMaxIs(s, k, m);
  }

  // Two relations that dominate each other have the same grouped maxima.
  lemma SameGroupMax<K>(r: set<(K, Num)>, s: set<(K, Num)>)
    requires Dominated(r, s) && Dominated(s, r)
    ensures GroupMax(r) == GroupMax(s)
  {
    forall k | k in GroupMax(r) ensures k in GroupMax(s) && GroupMax(s)[k] == GroupMax(r)[k] {
      DominatedMax(r, s, k);
    }
    forall k | k in GroupMax(s) ensures k in GroupMax(r) {
      DominatedMax(s, r, k);
    }
  }
}
