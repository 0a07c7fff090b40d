/** Counting the free blocks of a bitmap. */
module FreeBlocks {
  function Free(u: seq<bool>): nat {
    if u == [] then 0 else Free(u[..|u| - 1]) + if u[|u| - 1] then 0 else 1
  }

  lemma {:induction false} OneLess(u: seq<bool>, b: nat)
    requires b < |u| && !u[b]
    ensures Free(u[b := true]) == Free(u) - 1
  {
    var n := |u| - 1;
    if b < n {
      OneLess(u[..n], b);
      assert u[b := true][..n] == u[..n][b := true];
    } else {
      assert u[b := true][..n] == u[..n];
    }
  }

  lemma {:induction false} NoneFree(u: seq<bool>)
    ensures Free(u) == 0 <==> forall b :: 0 <= b < |u| ==> u[b]
  {
    if u != [] {
      var n := |u| - 1;
      NoneFree(u[..n]);
      assert forall b :: 0 <= b < n ==> u[..n][b] == u[b];
    }
  }
}
