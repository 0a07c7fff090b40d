/** fs/namei.c: the inode of a path. */
module Namei {
  const MAX_NAME_LEN := 255
  const ENAMETOOLONG := 36

  /** An inode, -ENOENT, another error, or, with LOOKUP_CREATE, the call of mknod that is made. */
  datatype Result = Inode(ino: nat) | NoEntry | Error(err: int) | Create(parent: nat, part: string)

  type Lookup = (string, nat) -> Result

  // ----- paths -----

  predicate Part(s: string) { s != [] && '/' !in s }

  /** The characters before the first slash. */
  function Head(s: string): (p: string)
    ensures |p| <= |s| && s[..|p|] == p && '/' !in p
    ensures |p| < |s| ==> s[|p|] == '/'
  {
    if s == [] || s[0] == '/' then [] else [s[0]] + Head(s[1..])
  }

  /** The nonempty pieces between slashes. */
  function Components(s: string): seq<string>
    decreases |s|
  {
    if s == [] then []
    else if s[0] == '/' then Components(s[1..])
    else assert Head(s) != []; [Head(s)] + Components(s[|Head(s)|..])
  }

  lemma {:induction false} HeadIs(p: string, rest: string)
    requires '/' !in p && (rest == [] || rest[0] == '/')
    ensures Head(p + rest) == p
  {
    if p != [] {
      assert (p + rest)[1..] == p[1..] + rest;
      HeadIs(p[1..], rest);
    } else {
      assert p + rest == rest;
    }
  }

  lemma FirstComponent(p: string, rest: string)
    requires Part(p) && (rest == [] || rest[0] == '/')
    ensures Components(p + rest) == [p] + Components(rest)
  {
    HeadIs(p, rest);
    assert (p + rest)[|p|..] == rest;
  }

  function Slashes(n: nat): string {
    if n == 0 then [] else ['/'] + Slashes(n - 1)
  }

  lemma {:induction false} SlashesSkipped(n: nat, s: string)
    ensures Components(Slashes(n) + s) == Components(s)
  {
    if n > 0 {
      assert (Slashes(n) + s)[1..] == Slashes(n - 1) + s;
      SlashesSkipped(n - 1, s);
    } else {
      assert Slashes(n) + s == s;
    }
  }

  /** parts with gaps[i] + 1 slashes between two of them, and gaps[i] after the last. */
  function Path(parts: seq<string>, gaps: seq<nat>): string
    requires |gaps| == |parts|
  {
    if parts == [] then []
    else parts[0] + Slashes(gaps[0] + if |parts| == 1 then 0 else 1) + Path(parts[1..], gaps[1..])
  }

  /** Repeated, leading and trailing slashes do not matter. */
  lemma {:induction false} PathComponents(parts: seq<string>, gaps: seq<nat>, lead: nat)
    requires |gaps| == |parts| && forall i :: 0 <= i < |parts| ==> Part(parts[i])
    ensures Components(Slashes(lead) + Path(parts, gaps)) == parts
    decreases |parts|
  {
    SlashesSkipped(lead, Path(parts, gaps));
    if parts != [] {
      var p, n, rest := parts[0], gaps[0] + (if |parts| == 1 then 0 else 1), Path(parts[1..], gaps[1..]);
      var tail := Slashes(n) + rest;
      assert Path(parts, gaps) == p + tail;
      FirstComponent(p, tail);
      PathComponents(parts[1..], gaps[1..], n);
    }
  }

  // ----- the walk -----

  /** One lookup after another, stopping at the first that fails; with stop, before the last. */
  function Walk(iget: Lookup, dir: nat, parts: seq<string>, stop: bool): Result
    decreases |parts|
  {
    if parts == [] then Inode(dir)
    else if |parts[0]| > MAX_NAME_LEN then Error(ENAMETOOLONG)
    else if stop && |parts| == 1 then Inode(dir)
    else
      var r := iget(parts[0], dir);
      if r.Inode? then Walk(iget, r.ino, parts[1..], stop) else r
  }

  /** The parent's lookup, and then the last component in it, is the whole lookup. */
  lemma {:induction false} ParentThenLast(iget: Lookup, dir: nat, parts: seq<string>)
    requires parts != [] && forall i :: 0 <= i < |parts| ==> |parts[i]| <= MAX_NAME_LEN
    ensures var p := Walk(iget, dir, parts, true);
      Walk(iget, dir, parts, false) == if p.Inode? then iget(parts[|parts| - 1], p.ino) else p
    ensures Walk(iget, dir, parts, true) == Walk(iget, dir, parts[..|parts| - 1], false)
    decreases |parts|
  {
    if |parts| > 1 {
      var r := iget(parts[0], dir);
      assert parts[..|parts| - 1][1..] == parts[1..][..|parts| - 2];
      if r.Inode? {
        ParentThenLast(iget, r.ino, parts[1..]);
      }
    } else {
      var r := iget(parts[0], dir);
      assert parts[1..] == [];
    }
  }

  /** The directory reached when a component is not there, and that component. */
  function Missing(iget: Lookup, dir: nat, parts: seq<string>, stop: bool): Result
    requires Walk(iget, dir, parts, stop).NoEntry?
    decreases |parts|
  {
    var r := iget(parts[0], dir);
    if r.Inode? then Missing(iget, r.ino, parts[1..], stop) else Create(dir, parts[0])
  }

  function Resolved(iget: Lookup, dir: nat, parts: seq<string>, stop: bool, create: bool): Result {
    var found := Walk(iget, dir, parts, stop);
    if create && found.NoEntry? then Missing(iget, dir, parts, stop) else found
  }

  /** The directories passed, each found in the one before under the next component. */
  ghost predicate Passed(iget: Lookup, dirs: seq<nat>, parts: seq<string>) {
    && 0 < |dirs| <= |parts| + 1
    && forall k :: 0 <= k < |dirs| - 1 ==> |parts[k]| <= 255 && iget(parts[k], dirs[k]) == Inode(dirs[k + 1])
  }

  /** How the walk ends, in the last directory passed: with all components found, before the last if that
      is asked for, or at the first that is too long or not found, which create would make there. */
  ghost predicate Ends(iget: Lookup, dirs: seq<nat>, parts: seq<string>, stop: bool, create: bool, r: Result)
    requires 0 < |dirs| <= |parts| + 1
  {
    var n := |dirs| - 1;
    if n == |parts| then (stop ==> parts == []) && r == Inode(dirs[n])
    else if |parts[n]| > 255 then r == Error(36)
    else if stop && n == |parts| - 1 then r == Inode(dirs[n])
    else
      var f := iget(parts[n], dirs[n]);
      !f.Inode? && r == if f.NoEntry? && create then Create(dirs[n], parts[n]) else f
  }

  ghost predicate Reaches(iget: Lookup, dir: nat, parts: seq<string>, stop: bool, create: bool, r: Result) {
    exists dirs :: Passed(iget, dirs, parts) && dirs[0] == dir && Ends(iget, dirs, parts, stop, create, r)
  }

  lemma {:induction false} ResolvedReaches(iget: Lookup, dir: nat, parts: seq<string>, stop: bool, create: bool)
    ensures Reaches(iget, dir, parts, stop, create, Resolved(iget, dir, parts, stop, create))
    decreases |parts|
  {
    var r := Resolved(iget, dir, parts, stop, create);
    if parts != [] && |parts[0]| <= 255 && !(stop && |parts| == 1) && iget(parts[0], dir).Inode? {
      var next := iget(parts[0], dir).ino;
      ResolvedReaches(iget, next, parts[1..], stop, create);
      var dirs :| Passed(iget, dirs, parts[1..]) && dirs[0] == next && Ends(iget, dirs, parts[1..], stop, create, r);
      assert Passed(iget, [dir] + dirs, parts) && Ends(iget, [dir] + dirs, parts, stop, create, r);
    } else {
      assert Passed(iget, [dir], parts) && Ends(iget, [dir], parts, stop, create, r);
    }
  }

  /** There is one such end. */
  lemma {:induction false} ReachesOne(iget: Lookup, dir: nat, parts: seq<string>, stop: bool, create: bool,
                                      r: Result, r': Result)
    requires Reaches(iget, dir, parts, stop, create, r) && Reaches(iget, dir, parts, stop, create, r')
    ensures r == r'
  {
    var dirs :| Passed(iget, dirs, parts) && dirs[0] == dir && Ends(iget, dirs, parts, stop, create, r);
    var dirs' :| Passed(iget, dirs', parts) && dirs'[0] == dir && Ends(iget, dirs', parts, stop, create, r');
    NoFurther(iget, dirs, dirs', parts, stop, create, r);
    NoFurther(iget, dirs', dirs, parts, stop, create, r');
    PassedSame(iget, dirs, dirs', parts, |dirs|);
  }

  lemma PassedAt(iget: Lookup, dirs: seq<nat>, parts: seq<string>, k: nat)
    requires Passed(iget, dirs, parts) && k < |dirs| - 1
    ensures |parts[k]| <= 255 && iget(parts[k], dirs[k]) == Inode(dirs[k + 1])
  {}

  /** Where one walk ends, no other goes on. */
  lemma NoFurther(iget: Lookup, dirs: seq<nat>, dirs': seq<nat>, parts: seq<string>, stop: bool, create: bool,
                  r: Result)
    requires Passed(iget, dirs, parts) && Passed(iget, dirs', parts) && dirs[0] == dirs'[0]
    requires Ends(iget, dirs, parts, stop, create, r)
    requires stop && parts != [] ==> |dirs'| <= |parts|
    ensures |dirs'| <= |dirs|
  {
    if |dirs| < |dirs'| {
      PassedAt(iget, dirs', parts, |dirs| - 1);
      PassedSame(iget, dirs, dirs', parts, |dirs|);
    }
  }

  lemma {:induction false} PassedSame(iget: Lookup, dirs: seq<nat>, dirs': seq<nat>, parts: seq<string>, n: nat)
    requires Passed(iget, dirs, parts) && Passed(iget, dirs', parts) && dirs[0] == dirs'[0]
    requires 0 < n <= |dirs| && n <= |dirs'|
    ensures forall k :: 0 <= k < n ==> dirs[k] == dirs'[k]
  {
    if n > 1 {
      PassedSame(iget, dirs, dirs', parts, n - 1);
      assert iget(parts[n - 2], dirs[n - 2]) == Inode(dirs[n - 1]);
      assert iget(parts[n - 2], dirs'[n - 2]) == Inode(dirs'[n - 1]);
    }
  }

  lemma ResolvedStep(iget: Lookup, dir: nat, part: string, rest: seq<string>, stop: bool, create: bool)
    requires |part| <= MAX_NAME_LEN
    ensures var r := iget(part, dir);
      Resolved(iget, dir, [part] + rest, stop, create) ==
        if stop && rest == [] then Inode(dir)
        else if r.Inode? then Resolved(iget, r.ino, rest, stop, create)
        else if r.NoEntry? && create then Create(dir, part) else r
  {}

  /** The next component into part, and past the slashes after it. */
  method ScanPart(name: string, from: nat) returns (part: string, i: nat, ok: bool)
    requires from < |name| && name[from] != '/'
    ensures ok ==> from < i <= |name| && |part| <= MAX_NAME_LEN
    ensures ok ==> Components(name[from..]) == [part] + Components(name[i..])
    ensures ok ==> (i < |name| ==> name[i] != '/') && (i < |name| <==> Components(name[i..]) != [])
    ensures !ok ==> Components(name[from..]) != [] && |Components(name[from..])[0]| > MAX_NAME_LEN
  {
    hide Head, Components;
    ghost var rest := name[from..];
    part, i := "", from;
    while i < |name| && name[i] != '/'
      invariant from <= i <= |name| && |part| == i - from <= MAX_NAME_LEN
      invariant part + name[i..] == rest && '/' !in part
    {
      if |part| >= MAX_NAME_LEN {
        assert rest[0] != '/';
        TooLong(part, name[i..]);
        return part, i, false;
      }
      part := part + [name[i]];
      i := i + 1;
    }
    FirstComponent(part, name[i..]);
    i := SkipSlashes(name, i);
    AtEnd(name[i..]);
    ok := true;
  }

  /** namei.  With create, what is made is the first component that is missing, be it the last or not. */
  method Namei(name: string, iget: Lookup, root: nat, pwd: nat, stop: bool, create: bool) returns (r: Result)
    ensures r == Resolved(iget, if name != [] && name[0] == '/' then root else pwd, Components(name), stop, create)
    ensures Reaches(iget, if name != [] && name[0] == '/' then root else pwd, Components(name), stop, create, r)
  {
    hide Walk, Missing, Components, Reaches;
    ResolvedReaches(iget, if name != [] && name[0] == '/' then root else pwd, Components(name), stop, create);
    var i, parent := 0, pwd;
    assert name[0..] == name;
    if name != [] && name[0] == '/' {
      parent := root;
      i := SkipSlashes(name, i);
    }
    ghost var want := Resolved(iget, parent, Components(name), stop, create);
    r := Inode(parent);
    while i < |name|
      invariant 0 <= i <= |name| && (i < |name| ==> name[i] != '/')
      invariant r == Inode(parent) && Resolved(iget, parent, Components(name[i..]), stop, create) == want
    {
      ghost var parts := Components(name[i..]);
      var part, ok;
      part, i, ok := ScanPart(name, i);
      if !ok {
        TooLongFails(iget, parent, parts, stop, create);
        return Error(ENAMETOOLONG);
      }
      ResolvedStep(iget, parent, part, Components(name[i..]), stop, create);
      if i == |name| && stop {
        return Inode(parent);
      }
      r := iget(part, parent);
      if !r.Inode? {
        return if r.NoEntry? && create then Create(parent, part) else r;
      }
      parent := r.ino;
    }
    assert name[i..] == [];
    NoMore(iget, parent, stop, create);
  }

  lemma TooLongFails(iget: Lookup, dir: nat, parts: seq<string>, stop: bool, create: bool)
    requires parts != [] && |parts[0]| > MAX_NAME_LEN
    ensures Resolved(iget, dir, parts, stop, create) == Error(ENAMETOOLONG)
  {}

  lemma NoMore(iget: Lookup, dir: nat, stop: bool, create: bool)
    ensures Resolved(iget, dir, [], stop, create) == Inode(dir) && Components([]) == []
  {}

  lemma AtEnd(s: string)
    requires s == [] || s[0] != '/'
    ensures s == [] <==> Components(s) == []
  {}

  method SkipSlashes(name: string, from: nat) returns (i: nat)
    requires from <= |name|
    ensures from <= i <= |name| && (i < |name| ==> name[i] != '/')
    ensures Components(name[i..]) == Components(name[from..])
  {
    i := from;
    while i < |name| && name[i] == '/'
      invariant from <= i <= |name|
      invariant Components(name[i..]) == Components(name[from..])
    {
      assert name[i..][1..] == name[i + 1..];
      i := i + 1;
    }
  }

  lemma TooLong(part: string, rest: string)
    requires '/' !in part && rest != [] && rest[0] != '/'
    ensures |Head(part + rest)| > |part|
    ensures part == [] || part[0] != '/' ==> Components(part + rest) != [] && |Components(part + rest)[0]| > |part|
  {}
}
