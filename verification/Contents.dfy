/** The bytes of a file or directory: its blocks, one after another. */
module Contents {
  import opened Bytes

  type Block = seq<Byte>

  predicate BlocksOf(disk: seq<Block>, size: nat) {
    forall b :: 0 <= b < |disk| ==> |disk[b]| == size
  }

  /** The first n pointers name blocks of the disk... */
  predicate Mapped(disk: seq<Block>, data: seq<int>, n: nat) {
    n <= |data| && forall k :: 0 <= k < n ==> 0 <= data[k] < |disk|
  }

  /** ... and different ones. */
  predicate Apart(data: seq<int>, n: nat) {
    n <= |data| && forall k, l :: 0 <= k < l < n ==> data[k] != data[l]
  }

  function Content(disk: seq<Block>, data: seq<int>, n: nat): seq<Byte>
    requires Mapped(disk, data, n)
  {
    if n == 0 then [] else Content(disk, data, n - 1) + disk[data[n - 1]]
  }

  lemma {:induction false} ContentLength(disk: seq<Block>, size: nat, data: seq<int>, n: nat)
    requires BlocksOf(disk, size) && Mapped(disk, data, n)
    ensures |Content(disk, data, n)| == n * size
  {
    if n > 0 {
      ContentLength(disk, size, data, n - 1);
    }
  }

  lemma {:induction false} ContentBlock(disk: seq<Block>, size: nat, data: seq<int>, n: nat, k: nat)
    requires BlocksOf(disk, size) && Mapped(disk, data, n) && k < n
    ensures 0 <= k * size <= k * size + size <= n * size == |Content(disk, data, n)|
    ensures Content(disk, data, n)[k * size..k * size + size] == disk[data[k]]
  {
    ContentLength(disk, size, data, n);
    ContentLength(disk, size, data, n - 1);
    if k < n - 1 {
      ContentBlock(disk, size, data, n - 1, k);
      assert Content(disk, data, n)[k * size..k * size + size] ==
        Content(disk, data, n - 1)[k * size..k * size + size];
    }
  }

  /** The first m blocks are the front of the first n. */
  lemma {:induction false} ContentPrefix(disk: seq<Block>, size: nat, data: seq<int>, m: nat, n: nat)
    requires BlocksOf(disk, size) && m <= n && Mapped(disk, data, n)
    ensures 0 <= m * size <= |Content(disk, data, n)|
    ensures Content(disk, data, m) == Content(disk, data, n)[..m * size]
    decreases n
  {
    ContentLength(disk, size, data, m);
    if m < n {
      ContentPrefix(disk, size, data, m, n - 1);
    }
  }

  /** What does not touch the file's blocks does not touch the file. */
  lemma {:induction false} ContentFrame(disk: seq<Block>, disk': seq<Block>, data: seq<int>, data': seq<int>, n: nat)
    requires Mapped(disk, data, n) && Mapped(disk', data', n)
    requires forall k :: 0 <= k < n ==> disk[data[k]] == disk'[data'[k]]
    ensures Content(disk, data, n) == Content(disk', data', n)
  {
    if n > 0 {
      ContentFrame(disk, disk', data, data', n - 1);
    }
  }

  /** Storing one of the file's blocks replaces that stretch of the file. */
  lemma {:induction false} ContentStore(disk: seq<Block>, size: nat, data: seq<int>, n: nat, k: nat, x: Block)
    requires BlocksOf(disk, size) && Mapped(disk, data, n) && Apart(data, n) && k < n && |x| == size
    ensures |Content(disk, data, n)| == n * size && 0 <= k * size <= n * size - size
    ensures Content(disk[data[k] := x], data, n) == Splice(Content(disk, data, n), k * size, x)
  {
    var disk' := disk[data[k] := x];
    ContentBlock(disk, size, data, n, k);
    ContentLength(disk, size, data, n - 1);
    var c := Content(disk, data, n - 1);
    if k < n - 1 {
      ContentStore(disk, size, data, n - 1, k, x);
      SpliceThenMore(c, k * size, x, disk[data[n - 1]]);
    } else {
      ContentFrame(disk, disk', data, data, n - 1);
      assert Splice(c + disk[data[k]], k * size, x) == c + x;
    }
  }

  lemma SpliceThenMore(c: seq<Byte>, at: nat, x: seq<Byte>, more: seq<Byte>)
    requires at + |x| <= |c|
    ensures Splice(c, at, x) + more == Splice(c + more, at, x)
  {}
}
