/** struct tfs_dir_entry in the bytes of a directory: a 32-bit inode number, then 28 bytes of name. */
module DirEntries {
  import opened Bytes
  import opened Directory

  const ENTRY := 32
  const NAME_LEN := 28
  const WORD := 0x1_0000_0000

  // ----- 32-bit numbers, low byte first -----

  function Le32(b: seq<Byte>): (r: nat)
    requires |b| == 4
    ensures r < WORD
  {
    b[0] as int + 0x100 * b[1] as int + 0x1_0000 * b[2] as int + 0x100_0000 * b[3] as int
  }

  function Le32Bytes(n: nat): (r: seq<Byte>)
    requires n < WORD
    ensures |r| == 4
  {
    [n % 256, n / 256 % 256, n / 256 / 256 % 256, n / 256 / 256 / 256]
  }

  lemma Le32RoundTrip(n: nat)
    requires n < WORD
    ensures Le32(Le32Bytes(n)) == n
  {}

  // ----- C strings -----

  predicate CString(s: seq<Byte>) { forall i :: 0 <= i < |s| ==> s[i] != 0 }

  /** The bytes before the first zero byte: strlen is its length. */
  function Cut(b: seq<Byte>): (r: seq<Byte>)
    ensures |r| <= |b| && CString(r) && b[..|r|] == r
    ensures |r| < |b| ==> b[|r|] == 0
  {
    if b == [] || b[0] == 0 then [] else [b[0]] + Cut(b[1..])
  }

  lemma {:induction false} CutIs(b: seq<Byte>, s: seq<Byte>)
    requires CString(s) && |s| <= |b| && b[..|s|] == s
    requires |s| == |b| || b[|s|] == 0
    ensures Cut(b) == s
  {}

  // ----- entries -----

  function InoBytes(c: seq<Byte>, s: nat): seq<Byte>
    requires ENTRY * s + ENTRY <= |c|
  {
    c[ENTRY * s..ENTRY * s + 4]
  }

  function RawName(c: seq<Byte>, s: nat): seq<Byte>
    requires ENTRY * s + ENTRY <= |c|
  {
    c[ENTRY * s + 4..ENTRY * s + ENTRY]
  }

  function SlotAt(c: seq<Byte>, s: nat): Slot
    requires ENTRY * s + ENTRY <= |c|
  {
    Slot(Le32(InoBytes(c, s)), Cut(RawName(c, s)))
  }

  function Slots(c: seq<Byte>): (r: seq<Slot>)
    ensures |r| == |c| / ENTRY
    ensures forall s :: 0 <= s < |r| ==> r[s] == SlotAt(c, s)
  {
    seq(|c| / ENTRY, s requires 0 <= s < |c| / ENTRY => SlotAt(c, s))
  }

  function Nulls(n: nat): (r: seq<Byte>)
    ensures |r| == n
    ensures forall i :: 0 <= i < n ==> r[i] == 0
  {
    seq(n, _ => 0)
  }

  /** What add_entry builds: zeros, then the number, then the name. */
  function EntryBytes(ino: nat, name: Name): (r: seq<Byte>)
    requires ino < WORD && |name| <= NAME_LEN
    ensures |r| == ENTRY
  {
    Le32Bytes(ino) + name + Nulls(NAME_LEN - |name|)
  }

  lemma EntryReads(ino: nat, name: Name)
    requires ino < WORD && |name| <= NAME_LEN && CString(name)
    ensures SlotAt(EntryBytes(ino, name), 0) == Slot(ino, name)
  {
    var e := EntryBytes(ino, name);
    assert InoBytes(e, 0) == Le32Bytes(ino);
    Le32RoundTrip(ino);
    CutIs(RawName(e, 0), name);
  }

  /** A slot depends on its 32 bytes. */
  lemma SameSlot(c: seq<Byte>, s: nat, c': seq<Byte>, s': nat)
    requires ENTRY * s + ENTRY <= |c| && ENTRY * s' + ENTRY <= |c'|
    requires c[ENTRY * s..ENTRY * s + ENTRY] == c'[ENTRY * s'..ENTRY * s' + ENTRY]
    ensures SlotAt(c, s) == SlotAt(c', s')
  {
    var e, e' := c[ENTRY * s..ENTRY * s + ENTRY], c'[ENTRY * s'..ENTRY * s' + ENTRY];
    assert InoBytes(c, s) == e[..4] && RawName(c, s) == e[4..];
    assert InoBytes(c', s') == e'[..4] && RawName(c', s') == e'[4..];
  }

  lemma SlotStored(c: seq<Byte>, s: nat, e: seq<Byte>)
    requires ENTRY * s + ENTRY <= |c| && |e| == ENTRY
    ensures Slots(Splice(c, ENTRY * s, e)) == Slots(c)[s := SlotAt(e, 0)]
  {
    hide Splice;
    var c' := Splice(c, ENTRY * s, e);
    forall t | 0 <= t < |c| / ENTRY ensures Slots(c')[t] == Slots(c)[s := SlotAt(e, 0)][t] {
      if t == s {
        SpliceInside(c, ENTRY * s, e);
        assert e[0..ENTRY] == e;
        SameSlot(c', s, e, 0);
      } else {
        SpliceOutside(c, ENTRY * s, e, ENTRY * t, ENTRY * t + ENTRY);
        SameSlot(c', t, c, t);
      }
    }
  }

  /** de->d_inode = 0 */
  lemma SlotZeroed(c: seq<Byte>, s: nat)
    requires ENTRY * s + ENTRY <= |c|
    ensures Slots(Splice(c, ENTRY * s, Le32Bytes(0))) == Slots(c)[s := Slot(0, Slots(c)[s].name)]
  {
    var e := Le32Bytes(0) + RawName(c, s);
    assert Splice(c, ENTRY * s, Le32Bytes(0)) == Splice(c, ENTRY * s, e);
    SlotStored(c, s, e);
    assert InoBytes(e, 0) == Le32Bytes(0) && RawName(e, 0) == RawName(c, s);
    Le32RoundTrip(0);
  }

  lemma SlotsJoin(a: seq<Byte>, b: seq<Byte>)
    requires |a| % ENTRY == 0
    ensures Slots(a + b) == Slots(a) + Slots(b)
  {
    forall t | 0 <= t < |a + b| / ENTRY ensures Slots(a + b)[t] == (Slots(a) + Slots(b))[t] {
      if t < |a| / ENTRY {
        SameSlot(a + b, t, a, t);
      } else {
        SameSlot(a + b, t, b, t - |a| / ENTRY);
      }
    }
  }

  // ----- tfs_match_entry -----

  /** tail is what follows from d_name on: the 28 bytes, and what memory holds after them. */
  predicate MatchEntry(name: Name, ino: nat, tail: seq<Byte>) {
    if ino == 0 then false
    else if |name| != |Cut(tail)| && |name| != NAME_LEN then false
    else |name| <= |tail| && name == tail[..|name|]
  }

  /** Within the length limit the match is exact. */
  lemma MatchIsExact(name: Name, ino: nat, tail: seq<Byte>)
    requires |name| <= NAME_LEN <= |tail| && CString(name)
    ensures MatchEntry(name, ino, tail) <==> ino != 0 && Cut(tail[..NAME_LEN]) == name
  {}

  /** Beyond it, it is not: a 29-byte name matches the entry of another name when its last byte is
      the number of a small inode in the next slot. */
  lemma LongNameMatches(name: Name, ino: nat, next: nat, more: seq<Byte>)
    requires |name| == NAME_LEN && CString(name) && 0 < ino < WORD && 0 < next < 256
    ensures var tail := name + Le32Bytes(next) + more;
      MatchEntry(name + [next], ino, tail) && Cut(tail[..NAME_LEN]) != name + [next]
  {
    var tail := name + Le32Bytes(next) + more;
    assert Le32Bytes(next) == [next, 0, 0, 0];
    CutIs(tail, name + [next]);
    CutIs(tail[..NAME_LEN], name);
  }
}
