/** Ruby Array operations used by the Multiplier merge, on sequences. */
module Lists {

  /** `Array#delete_at(k)`: removes position `k`; an index past the end changes nothing. */
  function DeleteAt<T>(s: seq<T>, k: nat): (r: seq<T>)
    ensures k < |s| ==> r == s[..k] + s[k + 1..]
    ensures k >= |s| ==> r == s
  {
    if k < |s| then s[..k] + s[k + 1..] else s
  }

  /** `rs.reverse.each { |idx| s.delete_at(idx) }` */
  function RemoveRev<T>(s: seq<T>, rs: seq<nat>): seq<T>
    decreases |rs|
  {
    if |rs| == 0 then s else RemoveRev(DeleteAt(s, rs[|rs| - 1]), rs[..|rs| - 1])
  }

  /** Deleting positions only drops elements. */
  lemma {:induction false} RemoveRevIn<T>(s: seq<T>, rs: seq<nat>)
    ensures forall y :: y in RemoveRev(s, rs) ==> y in s
    decreases |rs|
  {
    if |rs| > 0 {
      var k := rs[|rs| - 1];
      RemoveRevIn(DeleteAt(s, k), rs[..|rs| - 1]);
      if k < |s| {
        assert forall y :: y in DeleteAt(s, k) ==> y in s[..k] || y in s[k + 1..];
      }
    }
  }

  /** The elements of `s` whose positions are not in `gone`, in order. */
  function KeepIdx<T>(s: seq<T>, gone: set<nat>): seq<T>
    decreases |s|
  {
    if |s| == 0 then []
    else KeepIdx(s[..|s| - 1], gone) + (if |s| - 1 in gone then [] else [s[|s| - 1]])
  }

  predicate Ascending(rs: seq<nat>)
  {
    forall i, j :: 0 <= i < j < |rs| ==> rs[i] < rs[j]
  }

  function Elems(rs: seq<nat>): set<nat>
  {
    set i | 0 <= i < |rs| :: rs[i]
  }

  /** Only the positions inside the sequence matter. */
  lemma {:induction false} KeepIrrelevant<T>(s: seq<T>, a: set<nat>, b: set<nat>)
    requires forall k: nat :: k < |s| ==> (k in a <==> k in b)
    ensures KeepIdx(s, a) == KeepIdx(s, b)
    decreases |s|
  {
    if |s| > 0 {
      KeepIrrelevant(s[..|s| - 1], a, b);
    }
  }

  /** Removing nothing keeps everything. */
  lemma {:induction false} KeepNone<T>(s: seq<T>, gone: set<nat>)
    requires forall k: nat :: k < |s| ==> k !in gone
    ensures KeepIdx(s, gone) == s
    decreases |s|
  {
    if |s| > 0 {
      KeepNone(s[..|s| - 1], gone);
      assert s[..|s| - 1] + [s[|s| - 1]] == s;
    }
  }

  /** Positions removed from a prefix leave the rest untouched. */
  lemma {:induction false} KeepAppend<T>(a: seq<T>, b: seq<T>, gone: set<nat>)
    requires forall k :: k in gone ==> k < |a|
    ensures KeepIdx(a + b, gone) == KeepIdx(a, gone) + b
    decreases |b|
  {
    if |b| == 0 {
      assert a + b == a;
    } else {
      var b' := b[..|b| - 1];
      KeepAppend(a, b', gone);
      assert (a + b)[..|a + b| - 1] == a + b';
      assert |a + b| - 1 !in gone;
      assert (a + b)[|a + b| - 1] == b[|b| - 1];
      assert KeepIdx(a + b, gone) == KeepIdx(a + b', gone) + [b[|b| - 1]];
      assert b' + [b[|b| - 1]] == b;
    }
  }

  /** Deleting ascending positions one by one, from the highest down, removes exactly those
      positions. */
  lemma {:induction false} RemoveRevKeeps<T>(s: seq<T>, rs: seq<nat>)
    requires Ascending(rs)
    requires forall i :: 0 <= i < |rs| ==> rs[i] < |s|
    ensures RemoveRev(s, rs) == KeepIdx(s, Elems(rs))
    decreases |rs|
  {
    if |rs| == 0 {
      KeepNone(s, Elems(rs));
    } else {
      var k := rs[|rs| - 1];
      var front := rs[..|rs| - 1];
      var d := DeleteAt(s, k);
      assert |d| == |s| - 1;
      assert forall i :: 0 <= i < |front| ==> front[i] < |d| by {
        forall i | 0 <= i < |front| ensures front[i] < |d| {
          assert front[i] == rs[i] < rs[|rs| - 1];
        }
      }
      RemoveRevKeeps(d, front);
      DeleteLast(s, rs);
    }
  }

  /** Deleting the highest scheduled position, then keeping what the others leave, keeps what
      all of them leave. */
  lemma DeleteLast<T>(s: seq<T>, rs: seq<nat>)
    requires Ascending(rs) && |rs| > 0
    requires forall i :: 0 <= i < |rs| ==> rs[i] < |s|
    ensures KeepIdx(DeleteAt(s, rs[|rs| - 1]), Elems(rs[..|rs| - 1])) == KeepIdx(s, Elems(rs))
  {
    var k := rs[|rs| - 1];
    var front := rs[..|rs| - 1];
    ElemsBelow(rs, front);
    KeepAfterDelete(s, k, Elems(front));
    KeepAtMost(s, k, Elems(rs));
    KeepIrrelevant(s[..k], Elems(rs), Elems(front));
  }

  /** The scheduled positions before the last are below it, and all are at most it. */
  lemma ElemsBelow(rs: seq<nat>, front: seq<nat>)
    requires Ascending(rs) && |rs| > 0 && front == rs[..|rs| - 1]
    ensures forall j :: j in Elems(front) ==> j < rs[|rs| - 1]
    ensures forall j :: j in Elems(rs) ==> j <= rs[|rs| - 1]
    ensures rs[|rs| - 1] in Elems(rs)
    ensures forall j: nat :: j < rs[|rs| - 1] ==> (j in Elems(rs) <==> j in Elems(front))
  {
    var k := rs[|rs| - 1];
    forall j | j in Elems(front) ensures j < k {
      var i :| 0 <= i < |front| && front[i] == j;
      assert rs[i] == j;
    }
    forall j | j in Elems(rs) ensures j <= k {
      var i :| 0 <= i < |rs| && rs[i] == j;
    }
    forall j: nat | j < k ensures j in Elems(rs) <==> j in Elems(front) {
      if j in Elems(rs) {
        var i :| 0 <= i < |rs| && rs[i] == j;
        assert front[i] == j;
      }
      if j in Elems(front) {
        var i :| 0 <= i < |front| && front[i] == j;
        assert rs[i] == j;
      }
    }
  }

  lemma KeepAfterDelete<T>(s: seq<T>, k: nat, gone: set<nat>)
    requires k < |s|
    requires forall j :: j in gone ==> j < k
    ensures KeepIdx(DeleteAt(s, k), gone) == KeepIdx(s[..k], gone) + s[k + 1..]
  {
    KeepAppend(s[..k], s[k + 1..], gone);
  }

  lemma KeepAtMost<T>(s: seq<T>, k: nat, gone: set<nat>)
    requires k < |s| && k in gone
    requires forall j :: j in gone ==> j <= k
    ensures KeepIdx(s, gone) == KeepIdx(s[..k], gone) + s[k + 1..]
  {
    assert s == s[..k + 1] + s[k + 1..];
    KeepAppend(s[..k + 1], s[k + 1..], gone);
    assert s[..k + 1][..k] == s[..k];
  }
}
