/** A directory as its slots, and the map from names to inode numbers that they stand for. */
module Directory {
  import opened Bytes

  type Name = seq<Byte>

  /** "." and ".." */
  const DOT: Name := [46]
  const DOTDOT: Name := [46, 46]

  /** A slot with inode number 0 is free. */
  datatype Slot = Slot(ino: nat, name: Name)

  predicate Taken(d: seq<Slot>, s: int) { 0 <= s < |d| && d[s].ino != 0 }

  ghost predicate Distinct(d: seq<Slot>) {
    forall s, t :: Taken(d, s) && Taken(d, t) && d[s].name == d[t].name ==> s == t
  }

  predicate Has(d: seq<Slot>, s: int, name: Name) { Taken(d, s) && d[s].name == name }

  function Listing(d: seq<Slot>): map<Name, nat> {
    if d == [] then map[]
    else
      var rest := Listing(d[..|d| - 1]);
      var last := d[|d| - 1];
      if last.ino == 0 then rest else rest[last.name := last.ino]
  }

  function Entries(d: seq<Slot>): nat {
    if d == [] then 0 else Entries(d[..|d| - 1]) + if d[|d| - 1].ino == 0 then 0 else 1
  }

  lemma FrontDistinct(d: seq<Slot>)
    requires Distinct(d) && d != []
    ensures Distinct(d[..|d| - 1])
  {}

  lemma {:induction false} Listed(d: seq<Slot>, name: Name)
    ensures name in Listing(d) <==> exists s :: Has(d, s, name)
  {
    if d != [] {
      var n := |d| - 1;
      Listed(d[..n], name);
      assert forall s :: Has(d, s, name) <==> Has(d[..n], s, name) || (s == n && Has(d, n, name));
      assert name in Listing(d) <==> name in Listing(d[..n]) || Has(d, n, name);
    } else {
      assert forall s :: !Has(d, s, name);
    }
  }

  lemma {:induction false} ListedUnder(d: seq<Slot>, s: nat, name: Name)
    requires Distinct(d) && Has(d, s, name)
    ensures name in Listing(d) && Listing(d)[name] == d[s].ino
  {
    var n := |d| - 1;
    if s < n {
      FrontDistinct(d);
      assert Has(d[..n], s, name);
      ListedUnder(d[..n], s, name);
      assert Taken(d, s) && (d[n].ino != 0 ==> Taken(d, n));
    }
  }

  /** A taken slot under a new name adds the name and nothing else. */
  lemma SlotTaken(d: seq<Slot>, s: nat, e: Slot)
    requires Distinct(d) && s < |d| && d[s].ino == 0
    requires e.ino != 0 && e.name !in Listing(d)
    ensures Distinct(d[s := e]) && Listing(d[s := e]) == Listing(d)[e.name := e.ino]
    ensures Entries(d[s := e]) == Entries(d) + 1
  {
    var t := d[s := e];
    Listed(d, e.name);
    assert forall i :: Taken(t, i) <==> i == s || Taken(d, i);
    assert Distinct(t) by {
      assert forall i :: Taken(d, i) ==> d[i].name != e.name by {
        assert forall i :: Taken(d, i) && d[i].name == e.name ==> Has(d, i, e.name);
      }
    }
    SameListing(t, Listing(d)[e.name := e.ino], d, s);
    EntriesChange(d, s, e);
  }

  lemma SameValue(d: seq<Slot>, t: seq<Slot>, name: Name)
    requires Distinct(d) && Distinct(t)
    requires forall i :: Has(t, i, name) <==> Has(d, i, name)
    requires forall i :: Has(t, i, name) && Has(d, i, name) ==> t[i].ino == d[i].ino
    ensures name in Listing(t) <==> name in Listing(d)
    ensures name in Listing(d) ==> Listing(t)[name] == Listing(d)[name]
  {
    Listed(d, name);
    Listed(t, name);
    if name in Listing(d) {
      var i :| Has(d, i, name);
      ListedUnder(d, i, name);
      ListedUnder(t, i, name);
    }
  }

  lemma SameListing(t: seq<Slot>, m: map<Name, nat>, d: seq<Slot>, s: nat)
    requires Distinct(t) && Distinct(d) && s < |d| == |t| && t == d[s := t[s]] && d[s].ino == 0 && t[s].ino != 0
    requires t[s].name !in Listing(d) && m == Listing(d)[t[s].name := t[s].ino]
    ensures Listing(t) == m
  {
    forall name: Name ensures name in Listing(t) <==> name in m
      ensures name in m ==> name in Listing(t) && Listing(t)[name] == m[name]
    {
      Listed(t, name);
      Listed(d, name);
      if name == t[s].name {
        ListedUnder(t, s, name);
      } else {
        assert forall i :: Has(t, i, name) <==> Has(d, i, name);
        SameValue(d, t, name);
      }
    }
  }

  /** A freed slot takes its own name away and nothing else. */
  lemma SlotFreed(d: seq<Slot>, s: nat, e: Slot)
    requires Distinct(d) && Taken(d, s) && e.ino == 0
    ensures Distinct(d[s := e]) && Listing(d[s := e]) == Listing(d) - {d[s].name}
    ensures Entries(d[s := e]) == Entries(d) - 1
  {
    var t := d[s := e];
    assert forall i :: Taken(t, i) <==> i != s && Taken(d, i);
    var m := Listing(d) - {d[s].name};
    forall name: Name ensures name in Listing(t) <==> name in m
      ensures name in m ==> name in Listing(t) && Listing(t)[name] == m[name]
    {
      Listed(t, name);
      Listed(d, name);
      assert forall i :: Has(t, i, name) <==> Has(d, i, name) && i != s;
      if name == d[s].name {
        assert Has(d, s, name);
      } else {
        SameValue(d, t, name);
      }
    }
    EntriesChange(d, s, e);
  }

  lemma {:induction false} EntriesChange(d: seq<Slot>, s: nat, e: Slot)
    requires s < |d|
    ensures Entries(d[s := e]) == Entries(d) + (if e.ino == 0 then 0 else 1) - (if d[s].ino == 0 then 0 else 1)
  {
    var n := |d| - 1;
    if s < n {
      EntriesChange(d[..n], s, e);
      assert d[s := e][..n] == d[..n][s := e];
    } else {
      assert d[s := e][..n] == d[..n];
    }
  }

  /** Free slots at the end change nothing. */
  lemma {:induction false} FreeSlotsAdded(d: seq<Slot>, more: seq<Slot>)
    requires forall i :: 0 <= i < |more| ==> more[i].ino == 0
    ensures Listing(d + more) == Listing(d) && Entries(d + more) == Entries(d)
    ensures Distinct(d) ==> Distinct(d + more)
  {
    if more == [] {
      assert d + more == d;
    } else {
      var n := |more| - 1;
      FreeSlotsAdded(d, more[..n]);
      assert (d + more)[..|d + more| - 1] == d + more[..n];
      assert forall i :: Taken(d + more, i) <==> Taken(d, i);
    }
  }

  /** As many names as taken slots. */
  lemma {:induction false} EntriesCount(d: seq<Slot>)
    requires Distinct(d)
    ensures |Listing(d)| == Entries(d)
  {
    if d != [] {
      var n := |d| - 1;
      FrontDistinct(d);
      EntriesCount(d[..n]);
      if d[n].ino != 0 {
        Listed(d[..n], d[n].name);
        assert Taken(d, n);
        assert forall s :: Has(d[..n], s, d[n].name) ==> Taken(d, s);
      }
    }
  }
}
