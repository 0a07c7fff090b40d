/** A circular doubly linked list over slot numbers, and what relinking does to it.

    Every pointer of fs/cache.c is the address of an element of the static array of slots or
    of the list head; here a pointer is that element's number, and the head's number comes
    after the last slot's. */
module Ring {
  ghost predicate NoRepeats(c: seq<int>) {
    forall i, j :: 0 <= i < j < |c| ==> c[i] != c[j]
  }

  /** c, which starts with the head, is the list in the order of the next links. */
  ghost predicate Linked(next: seq<int>, prev: seq<int>, c: seq<int>) {
    && |c| > 0 && |next| == |prev| && NoRepeats(c)
    && (forall i :: 0 <= i < |c| ==> 0 <= c[i] < |next|)
    && (forall i :: 0 <= i < |c| - 1 ==> next[c[i]] == c[i + 1] && prev[c[i + 1]] == c[i])
    && next[c[|c| - 1]] == c[0] && prev[c[0]] == c[|c| - 1]
  }

  function Drop(c: seq<int>, k: nat): seq<int>
    requires k < |c|
  {
    c[..k] + c[k + 1..]
  }

  /** Lines 96-97 of fs/cache.c: the neighbours of c[k] now point at each other. */
  lemma UnlinkDrops(next: seq<int>, prev: seq<int>, c: seq<int>, k: nat)
    requires Linked(next, prev, c) && 0 < k < |c|
    ensures var s := c[k];
      && 0 <= prev[s] < |next| && 0 <= next[s] < |next|
      && Linked(next[prev[s] := next[s]], prev[next[s] := prev[s]], Drop(c, k))
  {
    var s, d := c[k], Drop(c, k);
    assert prev[s] == c[k - 1] by { assert prev[c[k - 1 + 1]] == c[k - 1]; }
    assert next[s] == if k + 1 < |c| then c[k + 1] else c[0];
    var next', prev' := next[prev[s] := next[s]], prev[next[s] := prev[s]];
    forall i | 0 <= i < |d| - 1 ensures next'[d[i]] == d[i + 1] && prev'[d[i + 1]] == d[i] {
      if i < k - 1 { assert d[i] == c[i] && d[i + 1] == c[i + 1]; }
      else if i >= k { assert d[i] == c[i + 1] && d[i + 1] == c[i + 1 + 1]; }
    }
  }

  /** Lines 100-103: s goes between the last element and the head. */
  lemma AppendLinks(next: seq<int>, prev: seq<int>, c: seq<int>, s: int)
    requires Linked(next, prev, c) && s !in c && 0 <= s < |next|
    ensures var head, last := c[0], c[|c| - 1];
      Linked(next[last := s][s := head], prev[s := last][head := s], c + [s])
  {
  }
}
