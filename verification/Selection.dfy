/** What a filtering loop keeps of a list: which positions, each once and in order. */
module Selection {
  /** `idx` lists, in increasing order, exactly the positions of `s` that `keep` wants. */
  ghost predicate Selects<T>(s: seq<T>, keep: (T, nat) -> bool, idx: seq<nat>) {
    && (forall i :: 0 <= i < |idx| ==> idx[i] < |s| && keep(s[idx[i]], idx[i]))
    && (forall i, j :: 0 <= i < j < |idx| ==> idx[i] < idx[j])
    && (forall p: nat :: p < |s| && keep(s[p], p) ==> p in idx)
  }

  /** `r` holds the images of the elements at those positions. */
  ghost predicate Picks<T, U>(s: seq<T>, image: T -> U, idx: seq<nat>, r: seq<U>) {
    |r| == |idx| && forall i :: 0 <= i < |idx| ==> idx[i] < |s| && r[i] == image(s[idx[i]])
  }

  lemma SelectsNext<T>(s: seq<T>, keep: (T, nat) -> bool, idx: seq<nat>)
    requires s != [] && Selects(s[..|s| - 1], keep, idx)
    ensures var n := |s| - 1; Selects(s, keep, if keep(s[n], n) then idx + [n] else idx)
  {
    var n := |s| - 1;
    var idx' := if keep(s[n], n) then idx + [n] else idx;
    forall p: nat | p < |s| && keep(s[p], p) ensures p in idx' {
      if p < n {
        assert s[..n][p] == s[p];
        assert p in idx;
      } else {
        assert idx'[|idx|] == p;
      }
    }
  }

  lemma PicksNext<T, U>(s: seq<T>, image: T -> U, idx: seq<nat>, r: seq<U>)
    requires s != [] && Picks(s[..|s| - 1], image, idx, r)
    ensures var n := |s| - 1; Picks(s, image, idx, r) && Picks(s, image, idx + [n], r + [image(s[n])])
  {
  }

  /** One more element of the loop, kept or not. */
  lemma PickedNext<T, U>(s: seq<T>, keep: (T, nat) -> bool, image: T -> U, idx: seq<nat>, r: seq<U>, r': seq<U>) returns (idx': seq<nat>)
    requires s != [] && Selects(s[..|s| - 1], keep, idx) && Picks(s[..|s| - 1], image, idx, r)
    requires var n := |s| - 1; r' == if keep(s[n], n) then r + [image(s[n])] else r
    ensures Selects(s, keep, idx') && Picks(s, image, idx', r')
  {
    SelectsNext(s, keep, idx);
    PicksNext(s, image, idx, r);
    idx' := if keep(s[|s| - 1], |s| - 1) then idx + [|s| - 1] else idx;
  }

  /** An image is in the result exactly when a wanted element has it. */
  lemma PickedIff<T, U>(s: seq<T>, keep: (T, nat) -> bool, image: T -> U, idx: seq<nat>, r: seq<U>, u: U)
    requires Selects(s, keep, idx) && Picks(s, image, idx, r)
    ensures u in r <==> exists p: nat :: p < |s| && keep(s[p], p) && image(s[p]) == u
  {
    if u in r {
      var i :| 0 <= i < |r| && r[i] == u;
      assert image(s[idx[i]]) == u;
    }
    if p: nat :| p < |s| && keep(s[p], p) && image(s[p]) == u {
      var i :| 0 <= i < |idx| && idx[i] == p;
      assert r[i] == u;
    }
  }
}
