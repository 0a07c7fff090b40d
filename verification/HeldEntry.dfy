/** fs/tfs/dir.c keeps a cached block in hand while it goes on using the cache. */
module HeldEntry {
  import opened Bytes
  import opened Lru
  import opened BlockCache

  /** The requests of rmdir and unlink between finding an entry and clearing it: the table block of
      the inode it names, and that of the directory. */
  function Between(table: nat, perBlock: nat, ino: nat, dir: nat): seq<int>
    requires perBlock > 0 && ino > 0 && dir > 0
  {
    [table + (ino - 1) / perBlock, table + (dir - 1) / perBlock]
  }

  /** The entry found in block b is still where it was exactly when the cache has three slots, or
      has two and both inodes are in one block of the table. */
  lemma EntryInHand<S>(es: seq<Entry<S>>, s: S, b: int, table: nat, perBlock: nat, ino: nat, dir: nat)
    requires perBlock > 0 && ino > 0 && dir > 0
    requires |es| > 0 && es[|es| - 1] == Entry(s, b) && b != EMPTY && DistinctTags(Tags(es))
    requires var t := Between(table, perBlock, ino, dir); b !in t && EMPTY !in t
    ensures var t := Between(table, perBlock, ino, dir);
      var after := TouchAll(es, t);
      if |es| >= 3 || (|es| == 2 && t[0] == t[1]) then Entry(s, b) in after else b !in Tags(after)
  {
    hide TouchAll, Tags, Lists, UsedSince, Touch, DistinctTags, Find;
    var t := Between(table, perBlock, ino, dir);
    StaysUntilNOthers(es, s, b, t);
    assert BlocksIn(t) == {t[0], t[1]};
    assert t[0] == t[1] ==> BlocksIn(t) == {t[0]};
    assert |BlocksIn(t)| == if t[0] == t[1] then 1 else 2;
  }

  /** What rmdir and unlink do with the cache once they have asked for block b, in which the entry is:
      the inode is read and the directory written, and then the entry cleared where it was found. */
  function Removal(b: nat, table: nat, perBlock: nat, ino: nat, dir: nat, dirOff: nat, dirPart: seq<Byte>,
                   off: nat): seq<Access>
    requires perBlock > 0 && ino > 0 && dir > 0
  {
    [Get(b), Get(table + (ino - 1) / perBlock), Put(table + (dir - 1) / perBlock, dirOff, dirPart),
     HeldPut(b, off, [0, 0, 0, 0])]
  }

  /** The last of these stores is one that Execute allows, whatever came before, exactly when the entry is
      still in hand. */
  lemma RemovalIsHeld(before: seq<Access>, b: nat, table: nat, perBlock: nat, ino: nat, dir: nat, dirOff: nat,
                      dirPart: seq<Byte>, off: nat, n: nat)
    requires perBlock > 0 && ino > 0 && dir > 0 && b !in Between(table, perBlock, ino, dir)
    ensures var t := Between(table, perBlock, ino, dir);
      var ops := before + Removal(b, table, perBlock, ino, dir, dirOff, dirPart, off);
      Holding(ops[|before| + 3]) && ops[|before| + 3].b == b &&
      (StillHeld(ops[..|before| + 3], b, n) <==> n >= 3 || (n == 2 && t[0] == t[1]))
  {
    hide UsedSince;
    var t := Between(table, perBlock, ino, dir);
    var ops := before + Removal(b, table, perBlock, ino, dir, dirOff, dirPart, off);
    var o1, o2, o3 := ops[..|before| + 1], ops[..|before| + 2], ops[..|before| + 3];
    assert o1[..|before|] == before && o2[..|before| + 1] == o1 && o3[..|before| + 2] == o2;
    var tr := Trace(before) + [b];
    assert Trace(o1) == tr && Trace(o2) == tr + [t[0]] && Trace(o3) == tr + [t[0]] + [t[1]];
    SinceLast(tr, b, t[0], t[1]);
    assert BlocksIn(t) == {t[0], t[1]};
    assert t[0] == t[1] ==> BlocksIn(t) == {t[0]};
    assert |BlocksIn(t)| == if t[0] == t[1] then 1 else 2;
    assert b in Trace(o3);
  }

  lemma SinceLast(tr: seq<int>, b: int, x: int, y: int)
    requires tr != [] && tr[|tr| - 1] == b && x != b && y != b
    ensures UsedSince(tr + [x] + [y], b) == [x, y]
  {
    var t1, t2 := tr + [x], tr + [x] + [y];
    assert t2[..|t2| - 1] == t1 && t1[..|t1| - 1] == tr;
    assert UsedSince(tr, b) == [];
    assert UsedSince(t1, b) == [x];
  }
}
