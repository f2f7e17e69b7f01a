/** What several of the models need. */
module Helpers {

  datatype Option<+T> = None | Some(value: T)

  lemma Assoc<T>(a: seq<T>, b: seq<T>, c: seq<T>)
    ensures a + (b + c) == a + b + c
  {
  }

  lemma SubsetSize<T>(a: set<T>, b: set<T>)
    requires a <= b
    ensures |a| <= |b|
  {
    assert b == a + (b - a);
  }

  /** `r` is what stands in `s` at the positions `at`, which go up. */
  ghost predicate Picks<T>(s: seq<T>, at: seq<nat>, r: seq<T>) {
    && |at| == |r| && (forall k :: 0 <= k < |at| ==> at[k] < |s| && r[k] == s[at[k]])
    && forall j, k :: 0 <= j < k < |at| ==> at[j] < at[k]
  }

  /** The positions in what is left, as positions in the whole. */
  ghost function OneOn(at: seq<nat>): (r: seq<nat>)
    ensures |r| == |at| && forall k :: 0 <= k < |at| ==> r[k] == at[k] + 1
  {
    seq(|at|, k requires 0 <= k < |at| => at[k] + 1)
  }

  lemma InOneOn(at: seq<nat>, i: nat)
    ensures i in OneOn(at) <==> i > 0 && i - 1 in at
  {
    if i > 0 && i - 1 in at {
      var k :| 0 <= k < |at| && at[k] == i - 1;
      assert OneOn(at)[k] == i;
    }
  }

  lemma InPicksOn(at: seq<nat>, head: bool, i: nat)
    ensures i in (if head then [0] + OneOn(at) else OneOn(at)) <==> if i == 0 then head else i - 1 in at
  {
    InOneOn(at, i);
  }

  lemma PicksTail<T>(s: seq<T>, at: seq<nat>, r: seq<T>)
    requires s != [] && Picks(s[1..], at, r)
    ensures Picks(s, OneOn(at), r)
  {
    forall k | 0 <= k < |at| ensures at[k] + 1 < |s| && r[k] == s[at[k] + 1] {
      assert s[1..][at[k]] == s[at[k] + 1];
    }
  }

  /** The head of `s` is picked or not, and the rest as in the tail. */
  lemma PicksOn<T>(s: seq<T>, at: seq<nat>, r: seq<T>, head: bool)
    requires s != [] && Picks(s[1..], at, r)
    ensures Picks(s, if head then [0] + OneOn(at) else OneOn(at), if head then [s[0]] + r else r)
  {
    PicksTail(s, at, r);
    hide Picks;
    if head {
      PicksHead(s, OneOn(at), r);
    }
  }

  lemma PicksHead<T>(s: seq<T>, next: seq<nat>, r: seq<T>)
    requires s != [] && Picks(s, next, r) && forall k :: 0 <= k < |next| ==> next[k] > 0
    ensures Picks(s, [0] + next, [s[0]] + r)
  {
  }
}
