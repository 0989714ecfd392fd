/** The two kinds of `pd.merge(..., on=key, how=...)` the pipeline uses, on tables
    given as sequences of rows and a function that reads a row's key. */
module Joins {
  import opened Wrappers
  import opened Seqs

  /** A row of a merged table: the shared key, and the row of each side (missing when that
      side had no row with the key). */
  datatype Joined<L, R> = Joined(key: string, left: Option<L>, right: Option<R>)

  /** The rows of `rs` whose key is `k`, in order. */
  function Matching<R(==)>(rs: seq<R>, rk: R -> string, k: string): (m: seq<R>)
    ensures forall r :: r in m ==> r in rs && rk(r) == k
    ensures forall r :: r in rs && rk(r) == k ==> r in m
    ensures (forall i, j :: 0 <= i < j < |rs| ==> rk(rs[i]) != rk(rs[j])) ==> |m| <= 1
  {
    if |rs| == 0 then []
    else
      assert rs == [rs[0]] + rs[1..];
      var tail := Matching(rs[1..], rk, k);
      assert (forall i, j :: 0 <= i < j < |rs| ==> rk(rs[i]) != rk(rs[j])) && rk(rs[0]) == k ==> tail == [] by {
        if |tail| > 0 {
          assert tail[0] in tail;
        }
      }
      (if rk(rs[0]) == k then [rs[0]] else []) + tail
  }

  /** What a row of `pd.merge(ls, rs, how='left')` is: a left row paired with a right row of the
      same key, or with nothing when no right row has that key. */
  ghost predicate LeftJoined<L, R>(o: Joined<L, R>, ls: seq<L>, rs: seq<R>, lk: L -> string, rk: R -> string) {
    && o.left.Some? && o.left.value in ls && o.key == lk(o.left.value)
    && match o.right
       case Some(r) => r in rs && rk(r) == o.key
       case None => forall r :: r in rs ==> rk(r) != o.key
  }

  /** What a row of `pd.merge(ls, rs, how='outer')` is: a left-join row, or a right row whose
      key no left row has, paired with nothing. */
  ghost predicate OuterJoined<L, R>(o: Joined<L, R>, ls: seq<L>, rs: seq<R>, lk: L -> string, rk: R -> string) {
    || LeftJoined(o, ls, rs, lk, rk)
    || (&& o.left.None? && o.right.Some? && o.right.value in rs && o.key == rk(o.right.value)
        && forall l :: l in ls ==> lk(l) != o.key)
  }

  /** The rows one left row `l` with key `k` contributes to a left join, given the right rows
      `ms` that share its key: one per match, or one with the right side missing. */
  function Pairings<L, R>(k: string, l: L, ms: seq<R>): (out: seq<Joined<L, R>>)
    ensures forall o :: o in out ==> o.key == k && o.left == Some(l)
    ensures forall o :: o in out ==> match o.right case Some(r) => r in ms case None => |ms| == 0
    ensures forall r :: r in ms ==> Joined(k, Some(l), Some(r)) in out
    ensures |ms| == 0 ==> out == [Joined(k, Some(l), None)]
    ensures |ms| == 1 ==> |out| == 1
  {
    if |ms| == 0 then [Joined(k, Some(l), None)]
    else
      var out := seq(|ms|, i requires 0 <= i < |ms| => Joined(k, Some(l), Some(ms[i])));
      assert forall r :: r in ms ==> Joined(k, Some(l), Some(r)) in out by {
        forall r | r in ms ensures Joined(k, Some(l), Some(r)) in out {
          var i :| 0 <= i < |ms| && ms[i] == r;
          assert out[i] == Joined(k, Some(l), Some(r));
        }
      }
      out
  }

  /** The rows `head` of the first left row followed by the left join `tail` of the others
      form the left join of all of them. */
  lemma LeftJoinCons<L, R>(ls: seq<L>, rs: seq<R>, lk: L -> string, rk: R -> string,
                           head: seq<Joined<L, R>>, tail: seq<Joined<L, R>>)
    requires |ls| > 0
    requires forall o :: o in head ==> o.left == Some(ls[0]) && LeftJoined(o, ls[..1], rs, lk, rk)
    requires forall r :: r in rs && rk(r) == lk(ls[0]) ==> Joined(lk(ls[0]), Some(ls[0]), Some(r)) in head
    requires (forall r :: r in rs ==> rk(r) != lk(ls[0])) ==> Joined(lk(ls[0]), Some(ls[0]), None) in head
    requires forall o :: o in tail ==> LeftJoined(o, ls[1..], rs, lk, rk)
    requires forall l, r :: l in ls[1..] && r in rs && rk(r) == lk(l) ==> Joined(lk(l), Some(l), Some(r)) in tail
    requires forall l :: l in ls[1..] && (forall r :: r in rs ==> rk(r) != lk(l)) ==> Joined(lk(l), Some(l), None) in tail
    ensures forall o :: o in head + tail ==> LeftJoined(o, ls, rs, lk, rk)
    ensures forall l, r :: l in ls && r in rs && rk(r) == lk(l) ==> Joined(lk(l), Some(l), Some(r)) in head + tail
    ensures forall l :: l in ls && (forall r :: r in rs ==> rk(r) != lk(l)) ==> Joined(lk(l), Some(l), None) in head + tail
  {
  }

  /** `pd.merge(ls, rs, on=key, how='left')`: for each left row, in order, one row per right row
      with the same key, or a single row with the right side missing. */
  function LeftJoin<L(==), R(==)>(ls: seq<L>, rs: seq<R>, lk: L -> string, rk: R -> string): (out: seq<Joined<L, R>>)
    ensures forall o :: o in out ==> LeftJoined(o, ls, rs, lk, rk)
    ensures forall l, r :: l in ls && r in rs && rk(r) == lk(l) ==> Joined(lk(l), Some(l), Some(r)) in out
    ensures forall l :: l in ls && (forall r :: r in rs ==> rk(r) != lk(l)) ==> Joined(lk(l), Some(l), None) in out
  {
    if |ls| == 0 then []
    else
      var l := ls[0];
      var ms := Matching(rs, rk, lk(l));
      var head := Pairings(lk(l), l, ms);
      var tail := LeftJoin(ls[1..], rs, lk, rk);
      assert (forall r :: r in rs ==> rk(r) != lk(l)) ==> |ms| == 0 by {
        if |ms| > 0 { assert ms[0] in ms; }
      }
      assert forall o :: o in head ==> o.left == Some(l) && LeftJoined(o, ls[..1], rs, lk, rk) by {
        assert ls[..1] == [l];
      }
      LeftJoinCons(ls, rs, lk, rk, head, tail);
      head + tail
  }

  /** The right rows whose key no left row has, each paired with nothing. */
  function RightOnly<L(==), R(==)>(ls: seq<L>, rs: seq<R>, lk: L -> string, rk: R -> string): (out: seq<Joined<L, R>>)
    ensures forall o :: o in out ==>
      o.left.None? && o.right.Some? && o.right.value in rs && o.key == rk(o.right.value) && forall l :: l in ls ==> lk(l) != o.key
    ensures forall r :: r in rs && (forall l :: l in ls ==> lk(l) != rk(r)) ==> Joined(rk(r), None, Some(r)) in out
  {
    if |rs| == 0 then []
    else
      assert rs == [rs[0]] + rs[1..];
      var r := rs[0];
      assert (forall l :: l in ls ==> lk(l) != rk(r)) ==> |Matching(ls, lk, rk(r))| == 0 by {
        var m := Matching(ls, lk, rk(r));
        if |m| > 0 { assert m[0] in m; }
      }
      (if |Matching(ls, lk, rk(r))| == 0 then [Joined(rk(r), None, Some(r))] else [])
        + RightOnly(ls, rs[1..], lk, rk)
  }

  /** `pd.merge(ls, rs, on=key, how='outer')`: the left join, then the right rows no left row matched. */
  function OuterJoin<L(==), R(==)>(ls: seq<L>, rs: seq<R>, lk: L -> string, rk: R -> string): (out: seq<Joined<L, R>>)
    ensures forall o :: o in out ==> OuterJoined(o, ls, rs, lk, rk)
    ensures forall l, r :: l in ls && r in rs && rk(r) == lk(l) ==> Joined(lk(l), Some(l), Some(r)) in out
    ensures forall l :: l in ls && (forall r :: r in rs ==> rk(r) != lk(l)) ==> Joined(lk(l), Some(l), None) in out
    ensures forall r :: r in rs && (forall l :: l in ls ==> lk(l) != rk(r)) ==> Joined(rk(r), None, Some(r)) in out
  {
    LeftJoin(ls, rs, lk, rk) + RightOnly(ls, rs, lk, rk)
  }

  /** A left join never drops a left row. */
  lemma LeftJoinKeepsLeft<L, R>(ls: seq<L>, rs: seq<R>, lk: L -> string, rk: R -> string, l: L)
    requires l in ls
    ensures exists o :: o in LeftJoin(ls, rs, lk, rk) && o.left == Some(l)
  {
    var ms := Matching(rs, rk, lk(l));
    if |ms| == 0 {
      assert LeftJoined(Joined(lk(l), Some(l), None), ls, rs, lk, rk);
    } else {
      assert ms[0] in ms;
      assert LeftJoined(Joined(lk(l), Some(l), Some(ms[0])), ls, rs, lk, rk);
    }
  }

  /** An outer join keeps every row of either side. */
  lemma OuterJoinKeepsBoth<L, R>(ls: seq<L>, rs: seq<R>, lk: L -> string, rk: R -> string)
    ensures forall l :: l in ls ==> exists o :: o in OuterJoin(ls, rs, lk, rk) && o.left == Some(l)
    ensures forall r :: r in rs ==> exists o :: o in OuterJoin(ls, rs, lk, rk) && o.right == Some(r)
  {
    var out := OuterJoin(ls, rs, lk, rk);
    forall l | l in ls ensures exists o :: o in out && o.left == Some(l) {
      LeftJoinKeepsLeft(ls, rs, lk, rk, l);
      var o :| o in LeftJoin(ls, rs, lk, rk) && o.left == Some(l);
      assert OuterJoined(o, ls, rs, lk, rk);
    }
    forall r | r in rs ensures exists o :: o in out && o.right == Some(r) {
      var ms := Matching(ls, lk, rk(r));
      if |ms| == 0 {
        assert OuterJoined(Joined(rk(r), None, Some(r)), ls, rs, lk, rk);
      } else {
        assert ms[0] in ms;
        assert OuterJoined(Joined(lk(ms[0]), Some(ms[0]), Some(r)), ls, rs, lk, rk);
      }
    }
  }

  /** When the right keys are unique, a left join has exactly one row per left row, in order:
      a left join multiplies rows only when the right side repeats a key. */
  lemma {:induction false} LeftJoinOnePerLeft<L, R>(ls: seq<L>, rs: seq<R>, lk: L -> string, rk: R -> string)
    requires forall i, j :: 0 <= i < j < |rs| ==> rk(rs[i]) != rk(rs[j])
    ensures |LeftJoin(ls, rs, lk, rk)| == |ls|
    ensures forall i :: 0 <= i < |ls| ==> LeftJoin(ls, rs, lk, rk)[i].left == Some(ls[i])
  {
    if |ls| > 0 {
      LeftJoinOnePerLeft(ls[1..], rs, lk, rk);
      var ms := Matching(rs, rk, lk(ls[0]));
      var head := Pairings(lk(ls[0]), ls[0], ms);
      assert |head| == 1 && head[0].left == Some(ls[0]) by {
        assert head[0] in head;
      }
    }
  }

  /** The rows matching a key keep each right row of that key as often as the right side has it. */
  lemma {:induction false} MatchingCount<R>(rs: seq<R>, rk: R -> string, k: string, r: R)
    ensures multiset(Matching(rs, rk, k))[r] == if rk(r) == k then multiset(rs)[r] else 0
  {
    if |rs| > 0 {
      assert rs == [rs[0]] + rs[1..];
      MatchingCount(rs[1..], rk, k, r);
    }
  }

  /** With every right key also on the left, no right row is left unmatched. */
  lemma {:induction false} RightOnlyEmpty<L, R>(ls: seq<L>, rs: seq<R>, lk: L -> string, rk: R -> string)
    requires forall r :: r in rs ==> exists l :: l in ls && lk(l) == rk(r)
    ensures RightOnly(ls, rs, lk, rk) == []
  {
    if |rs| > 0 {
      assert rs[0] in rs;
      var l :| l in ls && lk(l) == rk(rs[0]);
      assert l in Matching(ls, lk, rk(rs[0]));
      assert forall r :: r in rs[1..] ==> r in rs;
      RightOnlyEmpty(ls, rs[1..], lk, rk);
    }
  }

  /** Every key of an outer join is a key of one side. */
  lemma OuterJoinKeysSound<L, R>(ls: seq<L>, rs: seq<R>, lk: L -> string, rk: R -> string, o: Joined<L, R>)
    requires o in OuterJoin(ls, rs, lk, rk)
    ensures o.key in (set l | l in ls :: lk(l)) + (set r | r in rs :: rk(r))
  {
  }

  /** An outer-join row carries the key of whichever side it holds. */
  lemma OuterJoinRowKey<L, R>(ls: seq<L>, rs: seq<R>, lk: L -> string, rk: R -> string, o: Joined<L, R>)
    requires OuterJoined(o, ls, rs, lk, rk)
    ensures o.left.Some? ==> o.key == lk(o.left.value)
    ensures o.right.Some? ==> o.key == rk(o.right.value)
  {
  }

  /** The keys of an outer join are exactly the keys of either side. */
  lemma OuterJoinKeys<L, R>(ls: seq<L>, rs: seq<R>, lk: L -> string, rk: R -> string)
    ensures (set o | o in OuterJoin(ls, rs, lk, rk) :: o.key) == (set l | l in ls :: lk(l)) + (set r | r in rs :: rk(r))
  {
    var out := OuterJoin(ls, rs, lk, rk);
    var keys := set o | o in out :: o.key;
    forall k | k in keys ensures k in (set l | l in ls :: lk(l)) + (set r | r in rs :: rk(r)) {
      var o :| o in out && o.key == k;
      OuterJoinKeysSound(ls, rs, lk, rk, o);
    }
    OuterJoinKeepsBoth(ls, rs, lk, rk);
    forall l | l in ls ensures lk(l) in keys {
      var o :| o in out && o.left == Some(l);
      OuterJoinRowKey(ls, rs, lk, rk, o);
    }
    forall r | r in rs ensures rk(r) in keys {
      var o :| o in out && o.right == Some(r);
      OuterJoinRowKey(ls, rs, lk, rk, o);
    }
  }
}
