/**
 Grouping a flat list of names into sets: a registered prefix owns its children, longest
 prefix first; a directory two or more names share is a set; and `init-X` joins what lies
 beside it. A group holds the positions of its members in the list of names.
 */
module Groups {
  import opened Wrappers
  import R = Redact

  datatype Group = Group(name: string, picks: seq<nat>)

  predicate OwnedBy(name: string, prefix: string) {
    name == prefix || (|prefix| < |name| && name[..|prefix|] == prefix && name[|prefix|] == '/')
  }

  /** Something in the list lies below `x`. */
  predicate Beside(names: seq<string>, x: string) {
    exists i :: 0 <= i < |names| && |x| < |names[i]| && names[i][..|x|] == x && names[i][|x|] == '/'
  }

  /** The prefix itself, and whatever starts with it and a slash. */
  lemma OwnedByIff(name: string, prefix: string)
    ensures OwnedBy(name, prefix) <==> name == prefix || exists rest :: name == prefix + "/" + rest
  {
    if OwnedBy(name, prefix) && name != prefix {
      assert name == prefix + "/" + name[|prefix| + 1..];
    }
  }

  lemma BesideIff(names: seq<string>, x: string)
    ensures Beside(names, x) <==> exists i, rest :: 0 <= i < |names| && names[i] == x + "/" + rest
  {
    if i :| 0 <= i < |names| && |x| < |names[i]| && names[i][..|x|] == x && names[i][|x|] == '/' {
      assert names[i] == x + "/" + names[i][|x| + 1..];
    }
  }

  /** `split_once('/')`: what comes before the first slash. */
  function Dir(name: string): (d: Option<string>)
    ensures d.Some? <==> '/' in name
    ensures d.Some? ==> OwnedBy(name, d.value) && '/' !in d.value && name != d.value
  {
    if name == "" then None
    else if name[0] == '/' then Some("")
    else
      assert name == [name[0]] + name[1..];
      var rest := Dir(name[1..]);
      if rest.None? then None
      else
        assert name[..|rest.value| + 1] == [name[0]] + name[1..][..|rest.value|];
        Some([name[0]] + rest.value)
  }

  const INIT := "init-"

  /** `init-X` for an X that is one non-empty segment. */
  function InitOf(name: string): Option<string> {
    if |name| > |INIT| && name[..|INIT|] == INIT && '/' !in name[|INIT|..] then Some(name[|INIT|..]) else None
  }

  // -------------------------------------------------------------- who is where

  predicate NoRepeats(picks: seq<nat>) {
    forall i, j :: 0 <= i < j < |picks| ==> picks[i] != picks[j]
  }

  ghost predicate GroupFits(n: nat, group: Group, g: nat, owner: seq<int>)
    requires |owner| == n
  {
    NoRepeats(group.picks) && forall i :: i in group.picks ==> i < n && owner[i] == g
  }

  /** `owner` says for each position which group holds it, or -1; the groups say the same. */
  ghost predicate Fits(n: nat, groups: seq<Group>, owner: seq<int>) {
    && |owner| == n
    && (forall i :: 0 <= i < n ==> -1 <= owner[i] < |groups| && (owner[i] >= 0 ==> i in groups[owner[i]].picks))
    && (forall g :: 0 <= g < |groups| ==> GroupFits(n, groups[g], g, owner))
  }

  lemma PickFits(n: nat, groups: seq<Group>, owner: seq<int>, g: nat, i: nat)
    requires Fits(n, groups, owner) && g < |groups| && i < n && owner[i] == -1
    ensures Fits(n, groups[g := Group(groups[g].name, groups[g].picks + [i])], owner[i := g])
  {
    var groups', owner' := groups[g := Group(groups[g].name, groups[g].picks + [i])], owner[i := g];
    forall h | 0 <= h < |groups'|
      ensures GroupFits(n, groups'[h], h, owner')
    {
      assert GroupFits(n, groups[h], h, owner);
    }
  }

  lemma NewFits(n: nat, groups: seq<Group>, owner: seq<int>, name: string)
    requires Fits(n, groups, owner)
    ensures Fits(n, groups + [Group(name, [])], owner)
  {
    var groups' := groups + [Group(name, [])];
    forall h | 0 <= h < |groups'|
      ensures GroupFits(n, groups'[h], h, owner)
    {
      if h < |groups| {
        assert GroupFits(n, groups[h], h, owner);
      }
    }
  }

  lemma DropFits(n: nat, groups: seq<Group>, owner: seq<int>, name: string)
    requires Fits(n, groups + [Group(name, [])], owner)
    ensures Fits(n, groups, owner)
  {
    var more := groups + [Group(name, [])];
    forall i | 0 <= i < n
      ensures owner[i] < |groups|
    {
      assert owner[i] >= 0 ==> i in more[owner[i]].picks;
    }
    forall h | 0 <= h < |groups|
      ensures GroupFits(n, groups[h], h, owner)
    {
      assert GroupFits(n, more[h], h, owner);
    }
  }

  ghost predicate Marks(taken: seq<bool>, owner: seq<int>) {
    |taken| == |owner| && forall i :: 0 <= i < |owner| ==> (taken[i] <==> owner[i] >= 0)
  }

  ghost predicate DistinctNames(groups: seq<Group>) {
    forall g, h :: 0 <= g < h < |groups| ==> groups[g].name != groups[h].name
  }

  ghost predicate NoneEmpty(groups: seq<Group>) {
    forall g :: 0 <= g < |groups| ==> groups[g].picks != []
  }

  /** The name of the group that holds position `i`, when one does. */
  ghost function At(groups: seq<Group>, owner: seq<int>, i: int): Option<string>
    requires 0 <= i < |owner| && owner[i] < |groups|
  {
    if owner[i] >= 0 then Some(groups[owner[i]].name) else None
  }

  // ------------------------------------------------------- what the rules say

  /** The first prefix of the list that owns the name. */
  function Owner(prefixes: seq<string>, name: string): Option<string> {
    if prefixes == [] then None
    else
      var earlier := Owner(prefixes[..|prefixes| - 1], name);
      if earlier.None? && OwnedBy(name, prefixes[|prefixes| - 1]) then Some(prefixes[|prefixes| - 1]) else earlier
  }

  predicate LooseIn(names: seq<string>, prefixes: seq<string>, dir: string, i: nat)
    requires i < |names|
  {
    Owner(prefixes, names[i]) == None && Dir(names[i]) == Some(dir)
  }

  /** The first `n` positions whose name no prefix owns and whose first segment is `dir`. */
  function Loose(names: seq<string>, prefixes: seq<string>, dir: string, n: nat): (picks: seq<nat>)
    requires n <= |names|
    ensures forall k :: 0 <= k < |picks| ==> picks[k] < n && LooseIn(names, prefixes, dir, picks[k])
    ensures forall j, k :: 0 <= j < k < |picks| ==> picks[j] < picks[k]
    ensures forall i :: 0 <= i < n && LooseIn(names, prefixes, dir, i) ==> i in picks
  {
    if n == 0 then []
    else
      var earlier := Loose(names, prefixes, dir, n - 1);
      if LooseIn(names, prefixes, dir, n - 1) then earlier + [n - 1] else earlier
  }

  /** Where the first two rules put position `i`. */
  function Home(names: seq<string>, prefixes: seq<string>, i: nat): Option<string>
    requires i < |names|
  {
    if Owner(prefixes, names[i]).Some? then Owner(prefixes, names[i])
    else if Dir(names[i]).Some? && |Loose(names, prefixes, Dir(names[i]).value, |names|)| >= 2 then Dir(names[i])
    else None
  }

  // -------------------------------------------------------------- first pass

  ghost predicate NamesFrom(groups: seq<Group>, prefixes: seq<string>) {
    forall g :: 0 <= g < |groups| ==> groups[g].name in prefixes
  }

  /** Whoever one of these prefixes owns is in the group of the first that does, and nobody else is in a group. */
  ghost predicate ByPrefix(names: seq<string>, prefixes: seq<string>, groups: seq<Group>, owner: seq<int>)
    requires Fits(|names|, groups, owner)
  {
    forall i :: 0 <= i < |names| ==> At(groups, owner, i) == Owner(prefixes, names[i])
  }

  ghost predicate AfterPrefixes(names: seq<string>, prefixes: seq<string>, groups: seq<Group>, owner: seq<int>) {
    && Fits(|names|, groups, owner) && DistinctNames(groups) && NoneEmpty(groups) && NamesFrom(groups, prefixes)
    && ByPrefix(names, prefixes, groups, owner)
  }

  /** A group is added when it has a member. */
  function Grown(groups: seq<Group>, name: string, picks: seq<nat>): seq<Group> {
    if picks == [] then groups else groups + [Group(name, picks)]
  }

  method PrefixPass(names: seq<string>, prefixes: seq<string>, taken: array<bool>) returns (groups: seq<Group>, ghost owner: seq<int>)
    requires taken.Length == |names| && forall i :: 0 <= i < taken.Length ==> !taken[i]
    modifies taken
    ensures Marks(taken[..], owner) && AfterPrefixes(names, prefixes, groups, owner)
  {
    groups := [];
    owner := seq(|names|, _ => -1);
    for k := 0 to |prefixes|
      invariant Marks(taken[..], owner) && AfterPrefixes(names, prefixes[..k], groups, owner)
    {
      var prefix := prefixes[k];
      ghost var before := owner;
      var picks;
      picks, owner := OnePass(names, prefix, taken, groups, owner);
      OnePrefix(names, prefixes, k, groups, before, picks, owner);
      groups := Grown(groups, prefix, picks);
    }
    assert prefixes[..|prefixes|] == prefixes;
  }

  method OnePass(names: seq<string>, prefix: string, taken: array<bool>, ghost groups: seq<Group>, ghost owner: seq<int>)
    returns (picks: seq<nat>, ghost owner': seq<int>)
    requires taken.Length == |names| && Fits(|names|, groups, owner) && Marks(taken[..], owner)
    modifies taken
    ensures Marks(taken[..], owner') && Fits(|names|, groups + [Group(prefix, picks)], owner')
    ensures forall i :: 0 <= i < |names| ==>
              owner'[i] == if owner[i] == -1 && OwnedBy(names[i], prefix) then |groups| else owner[i]
  {
    NewFits(|names|, groups, owner, prefix);
    picks, owner' := PrefixMembers(names, prefix, [], taken, groups, owner);
  }

  /** The free names a prefix owns, taken in order after those a new group starts with. */
  method PrefixMembers(names: seq<string>, prefix: string, start: seq<nat>, taken: array<bool>, ghost groups: seq<Group>, ghost owner: seq<int>)
    returns (picks: seq<nat>, ghost owner': seq<int>)
    requires taken.Length == |names| && Fits(|names|, groups + [Group(prefix, start)], owner) && Marks(taken[..], owner)
    modifies taken
    ensures Marks(taken[..], owner') && Fits(|names|, groups + [Group(prefix, picks)], owner') && start <= picks
    ensures forall i :: 0 <= i < |names| ==>
              owner'[i] == if owner[i] == -1 && OwnedBy(names[i], prefix) then |groups| else owner[i]
  {
    picks, owner' := start, owner;
    for i := 0 to |names|
      invariant Marks(taken[..], owner') && Fits(|names|, groups + [Group(prefix, picks)], owner') && start <= picks
      invariant forall j :: 0 <= j < |names| ==>
                  owner'[j] == if j < i && owner[j] == -1 && OwnedBy(names[j], prefix) then |groups| else owner[j]
    {
      if taken[i] {
        continue;
      }
      if OwnedBy(names[i], prefix) {
        LastFits(|names|, groups, prefix, picks, owner', i);
        taken[i] := true;
        picks := picks + [i];
        owner' := owner'[i := |groups|];
      }
    }
  }

  lemma LastFits(n: nat, groups: seq<Group>, name: string, picks: seq<nat>, owner: seq<int>, i: nat)
    requires Fits(n, groups + [Group(name, picks)], owner) && i < n && owner[i] == -1
    ensures Fits(n, groups + [Group(name, picks + [i])], owner[i := |groups|])
  {
    PickFits(n, groups + [Group(name, picks)], owner, |groups|, i);
    assert (groups + [Group(name, picks)])[|groups| := Group(name, picks + [i])] == groups + [Group(name, picks + [i])];
  }

  lemma OnePrefix(names: seq<string>, prefixes: seq<string>, k: nat, groups: seq<Group>, owner: seq<int>, picks: seq<nat>, owner': seq<int>)
    requires k < |prefixes| && AfterPrefixes(names, prefixes[..k], groups, owner)
    requires Fits(|names|, groups + [Group(prefixes[k], picks)], owner')
    requires forall i :: 0 <= i < |names| ==>
               owner'[i] == if owner[i] == -1 && OwnedBy(names[i], prefixes[k]) then |groups| else owner[i]
    ensures AfterPrefixes(names, prefixes[..k + 1], Grown(groups, prefixes[k], picks), owner')
  {
    var sofar, next, p := prefixes[..k], prefixes[..k + 1], prefixes[k];
    assert next == sofar + [p];
    assert next[..|next| - 1] == sofar;
    var more := groups + [Group(p, picks)];
    if picks == [] {
      DropFits(|names|, groups, owner', p);
    } else {
      var i := picks[0];
      assert GroupFits(|names|, more[|groups|], |groups|, owner') && i in more[|groups|].picks;
      OwnerNone(sofar, names[i]);
    }
  }

  lemma {:induction false} OwnerNone(prefixes: seq<string>, name: string)
    ensures Owner(prefixes, name) == None <==> forall p :: p in prefixes ==> !OwnedBy(name, p)
    ensures Owner(prefixes, name).Some? ==> Owner(prefixes, name).value in prefixes && OwnedBy(name, Owner(prefixes, name).value)
  {
    if prefixes != [] {
      OwnerNone(prefixes[..|prefixes| - 1], name);
      assert prefixes == prefixes[..|prefixes| - 1] + [prefixes[|prefixes| - 1]];
    }
  }

  /** In a list sorted longest first, the first owner is the longest. */
  lemma {:induction false} OwnerIsLongest(prefixes: seq<string>, name: string, p: string)
    requires R.Descending(prefixes) && p in prefixes && OwnedBy(name, p)
    ensures Owner(prefixes, name).Some? && |Owner(prefixes, name).value| >= |p|
  {
    var front, last := prefixes[..|prefixes| - 1], prefixes[|prefixes| - 1];
    assert prefixes == front + [last];
    OwnerNone(front, name);
    if p in front {
      OwnerIsLongest(front, name, p);
    } else if Owner(front, name).Some? {
      var k :| 0 <= k < |front| && front[k] == Owner(front, name).value;
      assert prefixes[k] == front[k];
    }
  }

  // ------------------------------------------------------------- second pass

  datatype Shelf = Shelf(dir: string, picks: seq<nat>)

  /** Every first segment of a loose name among the first `n`, once, with its positions. */
  ghost predicate Shelved(names: seq<string>, prefixes: seq<string>, dirs: seq<Shelf>, n: nat)
    requires n <= |names|
  {
    && (forall a, b :: 0 <= a < b < |dirs| ==> dirs[a].dir != dirs[b].dir)
    && (forall a :: 0 <= a < |dirs| ==> dirs[a].picks == Loose(names, prefixes, dirs[a].dir, n))
    && (forall d :: Loose(names, prefixes, d, n) != [] ==> OnShelf(dirs, d))
  }

  ghost predicate OnShelf(dirs: seq<Shelf>, d: string) {
    exists a :: 0 <= a < |dirs| && dirs[a].dir == d
  }

  method FindDir(dirs: seq<Shelf>, dir: string) returns (a: nat)
    ensures a <= |dirs| && (a < |dirs| ==> dirs[a].dir == dir)
    ensures a == |dirs| ==> !OnShelf(dirs, dir)
  {
    a := 0;
    while a < |dirs| && dirs[a].dir != dir
      invariant a <= |dirs| && forall b :: 0 <= b < a ==> dirs[b].dir != dir
    {
      a := a + 1;
    }
  }

  method CollectDirs(names: seq<string>, ghost prefixes: seq<string>, taken: array<bool>) returns (dirs: seq<Shelf>)
    requires taken.Length == |names|
    requires forall i :: 0 <= i < |names| ==> (taken[i] <==> Owner(prefixes, names[i]).Some?)
    ensures Shelved(names, prefixes, dirs, |names|)
  {
    dirs := [];
    for i := 0 to |names|
      invariant Shelved(names, prefixes, dirs, i)
    {
      if taken[i] || Dir(names[i]).None? {
        PassOver(names, prefixes, dirs, i);
      } else {
        dirs := ShelveName(names, prefixes, dirs, i, Dir(names[i]).value);
      }
    }
  }

  method ShelveName(ghost names: seq<string>, ghost prefixes: seq<string>, dirs: seq<Shelf>, i: nat, dir: string) returns (dirs': seq<Shelf>)
    requires i < |names| && Shelved(names, prefixes, dirs, i) && LooseIn(names, prefixes, dir, i)
    ensures Shelved(names, prefixes, dirs', i + 1)
  {
    var a := FindDir(dirs, dir);
    if a < |dirs| {
      dirs' := dirs[a := Shelf(dir, dirs[a].picks + [i])];
    } else {
      dirs' := dirs + [Shelf(dir, [i])];
    }
    Shelve(names, prefixes, dirs, i, dirs', a);
  }

  lemma PassOver(names: seq<string>, prefixes: seq<string>, dirs: seq<Shelf>, i: nat)
    requires i < |names| && Shelved(names, prefixes, dirs, i)
    requires Owner(prefixes, names[i]).Some? || Dir(names[i]).None?
    ensures Shelved(names, prefixes, dirs, i + 1)
  {
    forall d
      ensures Loose(names, prefixes, d, i + 1) == Loose(names, prefixes, d, i)
    {
      LooseStep(names, prefixes, d, i);
    }
  }

  lemma Shelve(names: seq<string>, prefixes: seq<string>, dirs: seq<Shelf>, i: nat, dirs': seq<Shelf>, a: nat)
    requires i < |names| && Shelved(names, prefixes, dirs, i)
    requires Owner(prefixes, names[i]) == None && Dir(names[i]).Some? && a <= |dirs|
    requires a < |dirs| ==> dirs[a].dir == Dir(names[i]).value && dirs' == dirs[a := Shelf(dirs[a].dir, dirs[a].picks + [i])]
    requires a == |dirs| ==> !OnShelf(dirs, Dir(names[i]).value) && dirs' == dirs + [Shelf(Dir(names[i]).value, [i])]
    ensures Shelved(names, prefixes, dirs', i + 1)
  {
    var dir := Dir(names[i]).value;
    forall b | 0 <= b < |dirs'|
      ensures dirs'[b].picks == Loose(names, prefixes, dirs'[b].dir, i + 1)
    {
      LooseStep(names, prefixes, dirs'[b].dir, i);
      if b == |dirs| {
        assert Loose(names, prefixes, dir, i) == [];
      } else {
        assert dirs[b].picks == Loose(names, prefixes, dirs[b].dir, i);
      }
    }
    forall d | Loose(names, prefixes, d, i + 1) != []
      ensures OnShelf(dirs', d)
    {
      LooseStep(names, prefixes, d, i);
      if d == dir {
        assert dirs'[a].dir == d;
      } else {
        assert OnShelf(dirs, d);
        var b :| 0 <= b < |dirs| && dirs[b].dir == d;
        assert dirs'[b].dir == d;
      }
    }
  }

  lemma LooseStep(names: seq<string>, prefixes: seq<string>, d: string, i: nat)
    requires i < |names|
    ensures Loose(names, prefixes, d, i + 1)
            == if LooseIn(names, prefixes, d, i) then Loose(names, prefixes, d, i) + [i] else Loose(names, prefixes, d, i)
  {
  }

  /** After the first `k` directories: where each position is. */
  ghost predicate ByDir(names: seq<string>, prefixes: seq<string>, dirs: seq<Shelf>, groups: seq<Group>, owner: seq<int>)
    requires Fits(|names|, groups, owner)
  {
    forall i :: 0 <= i < |names| ==> At(groups, owner, i) == InDirs(names, prefixes, dirs, i)
  }

  ghost function InDirs(names: seq<string>, prefixes: seq<string>, dirs: seq<Shelf>, i: nat): Option<string>
    requires i < |names|
  {
    if Owner(prefixes, names[i]).Some? || (Dir(names[i]).Some? && OnShelf(dirs, Dir(names[i]).value)) then Home(names, prefixes, i)
    else None
  }

  /** No group is named after a directory still to come. */
  ghost predicate NotYet(groups: seq<Group>, dirs: seq<Shelf>, k: nat) {
    forall g, a :: 0 <= g < |groups| && k <= a < |dirs| && |dirs[a].picks| >= 2 ==> groups[g].name != dirs[a].dir
  }

  method DirPass(names: seq<string>, ghost prefixes: seq<string>, taken: array<bool>, groups: seq<Group>, ghost owner: seq<int>)
    returns (groups': seq<Group>, ghost owner': seq<int>)
    requires taken.Length == |names| && Marks(taken[..], owner) && AfterPrefixes(names, prefixes, groups, owner)
    modifies taken
    ensures Fits(|names|, groups', owner') && Marks(taken[..], owner')
    ensures DistinctNames(groups') && NoneEmpty(groups')
    ensures forall i :: 0 <= i < |names| ==> At(groups', owner', i) == Home(names, prefixes, i)
  {
    assert forall i :: 0 <= i < |names| ==> At(groups, owner, i) == Owner(prefixes, names[i]);
    var dirs := CollectDirs(names, prefixes, taken);
    groups', owner' := groups, owner;
    NoneYet(names, prefixes, groups, dirs);
    for k := 0 to |dirs|
      invariant Fits(|names|, groups', owner') && Marks(taken[..], owner')
      invariant DistinctNames(groups') && NoneEmpty(groups') && NotYet(groups', dirs, k)
      invariant ByDir(names, prefixes, dirs[..k], groups', owner')
    {
      var picks := dirs[k].picks;
      OneDirFree(names, prefixes, dirs, k, groups', owner');
      if |picks| < 2 {
        SmallDir(names, prefixes, dirs, k, groups', owner');
        continue;
      }
      ghost var before := owner';
      owner' := DirMembers(|names|, dirs[k].dir, picks, taken, groups', owner');
      OneDir(names, prefixes, dirs, k, groups', before, owner');
      groups' := groups' + [Group(dirs[k].dir, picks)];
    }
    assert dirs[..|dirs|] == dirs;
    forall i | 0 <= i < |names|
      ensures At(groups', owner', i) == Home(names, prefixes, i)
    {
      assert At(groups', owner', i) == InDirs(names, prefixes, dirs, i);
    }
  }

  lemma NoneYet(names: seq<string>, prefixes: seq<string>, groups: seq<Group>, dirs: seq<Shelf>)
    requires NamesFrom(groups, prefixes) && Shelved(names, prefixes, dirs, |names|)
    ensures NotYet(groups, dirs, 0)
  {
    forall g, a | 0 <= g < |groups| && 0 <= a < |dirs| && |dirs[a].picks| >= 2
      ensures groups[g].name != dirs[a].dir
    {
      var i := dirs[a].picks[0];
      assert LooseIn(names, prefixes, dirs[a].dir, i);
      OwnerNone(prefixes, names[i]);
    }
  }

  lemma OneDirFree(names: seq<string>, prefixes: seq<string>, dirs: seq<Shelf>, k: nat, groups: seq<Group>, owner: seq<int>)
    requires k < |dirs| && Shelved(names, prefixes, dirs, |names|)
    requires Fits(|names|, groups, owner) && ByDir(names, prefixes, dirs[..k], groups, owner)
    ensures forall p :: 0 <= p < |dirs[k].picks| ==> dirs[k].picks[p] < |names| && owner[dirs[k].picks[p]] == -1
  {
    forall p | 0 <= p < |dirs[k].picks|
      ensures dirs[k].picks[p] < |names| && owner[dirs[k].picks[p]] == -1
    {
      var i := dirs[k].picks[p];
      assert LooseIn(names, prefixes, dirs[k].dir, i);
      assert At(groups, owner, i) == InDirs(names, prefixes, dirs[..k], i);
    }
  }

  lemma ShelfBefore(dirs: seq<Shelf>, k: nat, d: string)
    requires k < |dirs|
    ensures OnShelf(dirs[..k + 1], d) <==> OnShelf(dirs[..k], d) || dirs[k].dir == d
  {
    var more := dirs[..k + 1];
    if OnShelf(dirs[..k], d) {
      var a :| 0 <= a < k && dirs[..k][a].dir == d;
      assert more[a].dir == d;
    }
    if dirs[k].dir == d {
      assert more[k].dir == d;
    }
    if OnShelf(more, d) && dirs[k].dir != d {
      var a :| 0 <= a < k + 1 && more[a].dir == d;
      assert dirs[..k][a].dir == d;
    }
  }

  lemma SmallDir(names: seq<string>, prefixes: seq<string>, dirs: seq<Shelf>, k: nat, groups: seq<Group>, owner: seq<int>)
    requires k < |dirs| && Shelved(names, prefixes, dirs, |names|) && |dirs[k].picks| < 2
    requires Fits(|names|, groups, owner) && ByDir(names, prefixes, dirs[..k], groups, owner)
    ensures ByDir(names, prefixes, dirs[..k + 1], groups, owner)
  {
    forall i | 0 <= i < |names|
      ensures At(groups, owner, i) == InDirs(names, prefixes, dirs[..k + 1], i)
    {
      assert At(groups, owner, i) == InDirs(names, prefixes, dirs[..k], i);
      if Dir(names[i]).Some? {
        ShelfBefore(dirs, k, Dir(names[i]).value);
      }
    }
  }

  method DirMembers(n: nat, dir: string, picks: seq<nat>, taken: array<bool>, ghost groups: seq<Group>, ghost owner: seq<int>)
    returns (ghost owner': seq<int>)
    requires taken.Length == n && Fits(n, groups, owner) && Marks(taken[..], owner) && NoRepeats(picks)
    requires forall p :: 0 <= p < |picks| ==> picks[p] < n && owner[picks[p]] == -1
    modifies taken
    ensures Marks(taken[..], owner') && Fits(n, groups + [Group(dir, picks)], owner')
    ensures forall i :: 0 <= i < n ==> owner'[i] == if i in picks then |groups| else owner[i]
  {
    owner' := owner;
    NewFits(n, groups, owner, dir);
    for p := 0 to |picks|
      invariant Marks(taken[..], owner') && Fits(n, groups + [Group(dir, picks[..p])], owner')
      invariant forall i :: 0 <= i < n ==> owner'[i] == if i in picks[..p] then |groups| else owner[i]
    {
      assert picks[p] !in picks[..p];
      assert picks[..p + 1] == picks[..p] + [picks[p]];
      LastFits(n, groups, dir, picks[..p], owner', picks[p]);
      taken[picks[p]] := true;
      owner' := owner'[picks[p] := |groups|];
    }
    assert picks[..|picks|] == picks;
  }

  lemma OneDir(names: seq<string>, prefixes: seq<string>, dirs: seq<Shelf>, k: nat, groups: seq<Group>, owner: seq<int>, owner': seq<int>)
    requires k < |dirs| && Shelved(names, prefixes, dirs, |names|) && |dirs[k].picks| >= 2
    requires Fits(|names|, groups, owner) && ByDir(names, prefixes, dirs[..k], groups, owner)
    requires DistinctNames(groups) && NotYet(groups, dirs, k)
    requires Fits(|names|, groups + [Group(dirs[k].dir, dirs[k].picks)], owner')
    requires forall i :: 0 <= i < |names| ==> owner'[i] == if i in dirs[k].picks then |groups| else owner[i]
    ensures var groups' := groups + [Group(dirs[k].dir, dirs[k].picks)];
            DistinctNames(groups') && NotYet(groups', dirs, k + 1) && ByDir(names, prefixes, dirs[..k + 1], groups', owner')
  {
    var groups' := groups + [Group(dirs[k].dir, dirs[k].picks)];
    forall i | 0 <= i < |names|
      ensures At(groups', owner', i) == InDirs(names, prefixes, dirs[..k + 1], i)
    {
      assert At(groups, owner, i) == InDirs(names, prefixes, dirs[..k], i);
      assert i in dirs[k].picks <==> LooseIn(names, prefixes, dirs[k].dir, i);
      if Dir(names[i]).Some? {
        ShelfBefore(dirs, k, Dir(names[i]).value);
      }
    }
  }

  // ------------------------------------------------- what the third rule says

  /** The first segment, or the whole of a name that has no slash. */
  function Head(name: string): (h: string)
    ensures '/' !in h && OwnedBy(name, h)
  {
    if Dir(name).Some? then Dir(name).value else name
  }

  lemma HeadOwns(name: string, x: string)
    requires '/' !in x && OwnedBy(name, x)
    ensures Head(name) == x
  {
    var h := Head(name);
    assert name[..|h|] == h && name[..|x|] == x;
    assert forall k :: 0 <= k < |h| ==> h[k] == name[k] && h[k] != '/';
    assert forall k :: 0 <= k < |x| ==> x[k] == name[k] && x[k] != '/';
  }

  /** Position `i` is an `init-X` the first two rules leave, and something lies below X. */
  predicate Asks(names: seq<string>, prefixes: seq<string>, i: nat)
    requires i < |names|
  {
    Home(names, prefixes, i).None? && InitOf(names[i]).Some? && Beside(names, InitOf(names[i]).value)
  }

  /** The first two rules make a set called `x`. */
  ghost predicate HasHome(names: seq<string>, prefixes: seq<string>, x: string) {
    exists k :: 0 <= k < |names| && Home(names, prefixes, k) == Some(x)
  }

  /** Still free when its turn comes, `init-X` decides for itself. */
  ghost predicate Acts(names: seq<string>, prefixes: seq<string>, i: nat)
    requires i < |names|
    decreases i, 1
  {
    Asks(names, prefixes, i) && !Swallowed(names, prefixes, i)
  }

  /** An earlier `init-Y` opened the set Y, where Y is this very name. */
  ghost predicate Swallowed(names: seq<string>, prefixes: seq<string>, i: nat)
    requires i < |names|
    decreases i, 0
  {
    exists j: nat :: j < i && names[j] == INIT + names[i] && Opens(names, prefixes, j)
  }

  /** It is the first to decide for X, and there is no set X yet: it opens one. */
  ghost predicate Opens(names: seq<string>, prefixes: seq<string>, i: nat)
    requires i < |names|
    decreases i, 2
  {
    && Acts(names, prefixes, i) && !HasHome(names, prefixes, InitOf(names[i]).value)
    && forall j: nat :: j < i && names[j] == names[i] ==> !Acts(names, prefixes, j)
  }

  /** Among the first `n` positions one opened the set `x`. */
  ghost predicate OpenedBefore(names: seq<string>, prefixes: seq<string>, n: nat, x: string) {
    exists j: nat :: j < n && j < |names| && names[j] == INIT + x && Opens(names, prefixes, j)
  }

  /** Where position `i` is once the third pass has gone over the first `n`. */
  ghost function PlaceAfter(names: seq<string>, prefixes: seq<string>, n: nat, i: nat): Option<string>
    requires i < |names|
  {
    if Home(names, prefixes, i).Some? then Home(names, prefixes, i)
    else if i < n && Acts(names, prefixes, i) then InitOf(names[i])
    else if OpenedBefore(names, prefixes, n, Head(names[i])) then Some(Head(names[i]))
    else None
  }

  /** The set that position `i` ends in, if any. */
  ghost function Place(names: seq<string>, prefixes: seq<string>, i: nat): Option<string>
    requires i < |names|
  {
    PlaceAfter(names, prefixes, |names|, i)
  }

  // -------------------------------------------------------------- third pass

  method FindGroup(groups: seq<Group>, name: string) returns (g: nat)
    ensures g <= |groups| && (g < |groups| ==> groups[g].name == name)
    ensures g == |groups| ==> forall h :: 0 <= h < |groups| ==> groups[h].name != name
  {
    g := 0;
    while g < |groups| && groups[g].name != name
      invariant g <= |groups| && forall h :: 0 <= h < g ==> groups[h].name != name
    {
      g := g + 1;
    }
  }

  /** The groups are where the third pass has put everything after `n` positions. */
  ghost predicate PlacedAfter(names: seq<string>, prefixes: seq<string>, n: nat, groups: seq<Group>, owner: seq<int>) {
    && Fits(|names|, groups, owner) && DistinctNames(groups) && NoneEmpty(groups)
    && forall i :: 0 <= i < |names| ==> At(groups, owner, i) == PlaceAfter(names, prefixes, n, i)
  }

  method InitPass(names: seq<string>, ghost prefixes: seq<string>, taken: array<bool>, groups: seq<Group>, ghost owner: seq<int>)
    returns (groups': seq<Group>, ghost owner': seq<int>)
    requires taken.Length == |names| && Fits(|names|, groups, owner) && Marks(taken[..], owner)
    requires DistinctNames(groups) && NoneEmpty(groups)
    requires forall i :: 0 <= i < |names| ==> At(groups, owner, i) == Home(names, prefixes, i)
    modifies taken
    ensures PlacedAfter(names, prefixes, |names|, groups', owner')
  {
    groups', owner' := groups, owner;
    NothingOpened(names, prefixes, groups, owner);
    for i := 0 to |names|
      invariant Marks(taken[..], owner') && PlacedAfter(names, prefixes, i, groups', owner')
    {
      TurnIs(names, prefixes, i, groups', owner');
      if taken[i] || InitOf(names[i]).None? || !Beside(names, InitOf(names[i]).value) {
        NoTurn(names, prefixes, i, groups', owner');
      } else {
        groups', owner' := TakeTurn(names, prefixes, i, InitOf(names[i]).value, taken, groups', owner');
      }
    }
  }

  lemma NothingOpened(names: seq<string>, prefixes: seq<string>, groups: seq<Group>, owner: seq<int>)
    requires Fits(|names|, groups, owner) && DistinctNames(groups) && NoneEmpty(groups)
    requires forall i :: 0 <= i < |names| ==> At(groups, owner, i) == Home(names, prefixes, i)
    ensures PlacedAfter(names, prefixes, 0, groups, owner)
  {
    forall i | 0 <= i < |names|
      ensures At(groups, owner, i) == PlaceAfter(names, prefixes, 0, i)
    {
    }
  }

  lemma InitName(name: string)
    ensures InitOf(name).Some? ==> name == INIT + InitOf(name).value && '/' !in name && Head(name) == name
    ensures InitOf(name).Some? ==> '/' !in InitOf(name).value && InitOf(name).value != ""
  {
    if InitOf(name).Some? {
      assert name == INIT + name[|INIT|..];
      assert '/' !in INIT;
    }
  }

  lemma TurnIs(names: seq<string>, prefixes: seq<string>, i: nat, groups: seq<Group>, owner: seq<int>)
    requires i < |names| && PlacedAfter(names, prefixes, i, groups, owner)
    ensures Acts(names, prefixes, i) <==> owner[i] < 0 && InitOf(names[i]).Some? && Beside(names, InitOf(names[i]).value)
  {
    assert At(groups, owner, i) == PlaceAfter(names, prefixes, i, i);
    InitName(names[i]);
  }

  /** Without a turn of its own a position changes nothing. */
  lemma NoTurn(names: seq<string>, prefixes: seq<string>, i: nat, groups: seq<Group>, owner: seq<int>)
    requires i < |names| && PlacedAfter(names, prefixes, i, groups, owner) && !Acts(names, prefixes, i)
    ensures PlacedAfter(names, prefixes, i + 1, groups, owner)
  {
    forall j | 0 <= j < |names|
      ensures At(groups, owner, j) == PlaceAfter(names, prefixes, i + 1, j)
    {
      assert At(groups, owner, j) == PlaceAfter(names, prefixes, i, j);
      StaysPut(names, prefixes, i, j);
    }
  }

  lemma StaysPut(names: seq<string>, prefixes: seq<string>, i: nat, j: nat)
    requires i < |names| && j < |names| && !Opens(names, prefixes, i)
    ensures PlaceAfter(names, prefixes, i + 1, j)
            == if j == i && Acts(names, prefixes, i) then InitOf(names[i]) else PlaceAfter(names, prefixes, i, j)
  {
    OpenedOneMore(names, prefixes, i, Head(names[j]));
  }

  lemma OpenedOneMore(names: seq<string>, prefixes: seq<string>, n: nat, x: string)
    requires n < |names|
    ensures OpenedBefore(names, prefixes, n + 1, x)
            <==> OpenedBefore(names, prefixes, n, x) || (names[n] == INIT + x && Opens(names, prefixes, n))
  {
  }

  /** There is a set `x` already exactly when the first two rules made one or somebody decided for `x` before. */
  lemma SetExistsIff(names: seq<string>, prefixes: seq<string>, n: nat, groups: seq<Group>, owner: seq<int>)
    requires n < |names| && PlacedAfter(names, prefixes, n, groups, owner) && Acts(names, prefixes, n)
    ensures Opens(names, prefixes, n) <==> forall g :: 0 <= g < |groups| ==> groups[g].name != InitOf(names[n]).value
  {
    var x := InitOf(names[n]).value;
    InitName(names[n]);
    forall g | 0 <= g < |groups| && groups[g].name == x
      ensures !Opens(names, prefixes, n)
    {
      assert GroupFits(|names|, groups[g], g, owner) && groups[g].picks[0] in groups[g].picks;
      WhyInSet(names, prefixes, n, groups[g].picks[0], x, groups, owner);
    }
    if !Opens(names, prefixes, n) {
      var k := InSet(names, prefixes, n);
      assert At(groups, owner, k) == Some(x);
      assert groups[owner[k]].name == x;
    }
  }

  lemma WhyInSet(names: seq<string>, prefixes: seq<string>, n: nat, k: nat, x: string, groups: seq<Group>, owner: seq<int>)
    requires n < |names| && k < |names| && PlacedAfter(names, prefixes, n, groups, owner)
    requires names[n] == INIT + x && At(groups, owner, k) == Some(x) && InitOf(names[n]) == Some(x)
    ensures !Opens(names, prefixes, n)
  {
    assert PlaceAfter(names, prefixes, n, k) == Some(x);
    InitName(names[k]);
    if Home(names, prefixes, k).Some? {
      assert HasHome(names, prefixes, x);
    } else if k < n && Acts(names, prefixes, k) {
      assert names[k] == names[n];
    } else {
      var j: nat :| j < n && j < |names| && names[j] == INIT + x && Opens(names, prefixes, j);
    }
  }

  lemma InSet(names: seq<string>, prefixes: seq<string>, n: nat) returns (k: nat)
    requires n < |names| && Acts(names, prefixes, n) && !Opens(names, prefixes, n)
    ensures k < |names| && PlaceAfter(names, prefixes, n, k) == InitOf(names[n])
  {
    if HasHome(names, prefixes, InitOf(names[n]).value) {
      k :| 0 <= k < |names| && Home(names, prefixes, k) == Some(InitOf(names[n]).value);
    } else {
      k :| 0 <= k < n && names[k] == names[n] && Acts(names, prefixes, k);
    }
  }

  method TakeTurn(names: seq<string>, ghost prefixes: seq<string>, i: nat, x: string, taken: array<bool>, groups: seq<Group>, ghost owner: seq<int>)
    returns (groups': seq<Group>, ghost owner': seq<int>)
    requires taken.Length == |names| && i < |names| && Marks(taken[..], owner) && PlacedAfter(names, prefixes, i, groups, owner)
    requires Acts(names, prefixes, i) && InitOf(names[i]) == Some(x) && owner[i] == -1
    modifies taken
    ensures Marks(taken[..], owner') && PlacedAfter(names, prefixes, i + 1, groups', owner')
  {
    taken[i] := true;
    SetExistsIff(names, prefixes, i, groups, owner);
    var g := FindGroup(groups, x);
    if g < |groups| {
      PickFits(|names|, groups, owner, g, i);
      groups', owner' := groups[g := Group(groups[g].name, groups[g].picks + [i])], owner[i := g];
      Join(names, prefixes, groups, owner, g, i);
    } else {
      var picks;
      picks, owner' := OpenSet(names, x, i, taken, groups, owner);
      groups' := groups + [Group(x, picks)];
      Open(names, prefixes, groups, owner, i, x, picks, owner');
    }
  }

  method OpenSet(names: seq<string>, x: string, i: nat, taken: array<bool>, ghost groups: seq<Group>, ghost owner: seq<int>)
    returns (picks: seq<nat>, ghost owner': seq<int>)
    requires taken.Length == |names| && i < |names| && Fits(|names|, groups, owner) && owner[i] == -1
    requires Marks(taken[..], owner[i := 0])
    modifies taken
    ensures Marks(taken[..], owner') && Fits(|names|, groups + [Group(x, picks)], owner') && picks != []
    ensures forall j :: 0 <= j < |names| ==>
              owner'[j] == if j == i || (owner[j] == -1 && OwnedBy(names[j], x)) then |groups| else owner[j]
  {
    NewFits(|names|, groups, owner, x);
    LastFits(|names|, groups, x, [], owner, i);
    picks, owner' := PrefixMembers(names, x, [i], taken, groups, owner[i := |groups|]);
  }

  lemma Join(names: seq<string>, prefixes: seq<string>, groups: seq<Group>, owner: seq<int>, g: nat, i: nat)
    requires i < |names| && PlacedAfter(names, prefixes, i, groups, owner) && owner[i] == -1 && g < |groups|
    requires Acts(names, prefixes, i) && !Opens(names, prefixes, i) && InitOf(names[i]) == Some(groups[g].name)
    requires Fits(|names|, groups[g := Group(groups[g].name, groups[g].picks + [i])], owner[i := g])
    ensures PlacedAfter(names, prefixes, i + 1, groups[g := Group(groups[g].name, groups[g].picks + [i])], owner[i := g])
  {
    var groups', owner' := groups[g := Group(groups[g].name, groups[g].picks + [i])], owner[i := g];
    forall j | 0 <= j < |names|
      ensures At(groups', owner', j) == PlaceAfter(names, prefixes, i + 1, j)
    {
      assert At(groups, owner, j) == PlaceAfter(names, prefixes, i, j);
      StaysPut(names, prefixes, i, j);
    }
  }

  lemma Open(names: seq<string>, prefixes: seq<string>, groups: seq<Group>, owner: seq<int>, i: nat, x: string, picks: seq<nat>, owner': seq<int>)
    requires i < |names| && PlacedAfter(names, prefixes, i, groups, owner) && Opens(names, prefixes, i) && InitOf(names[i]) == Some(x) && picks != []
    requires forall g :: 0 <= g < |groups| ==> groups[g].name != x
    requires Fits(|names|, groups + [Group(x, picks)], owner')
    requires forall j :: 0 <= j < |names| ==>
               owner'[j] == if j == i || (owner[j] == -1 && OwnedBy(names[j], x)) then |groups| else owner[j]
    ensures PlacedAfter(names, prefixes, i + 1, groups + [Group(x, picks)], owner')
  {
    var groups' := groups + [Group(x, picks)];
    forall j | 0 <= j < |names|
      ensures At(groups', owner', j) == PlaceAfter(names, prefixes, i + 1, j)
    {
      assert At(groups, owner, j) == PlaceAfter(names, prefixes, i, j);
      OpenMoves(names, prefixes, i, x, j);
    }
  }

  lemma OpenMoves(names: seq<string>, prefixes: seq<string>, i: nat, x: string, j: nat)
    requires i < |names| && j < |names| && Opens(names, prefixes, i) && InitOf(names[i]) == Some(x)
    ensures PlaceAfter(names, prefixes, i + 1, j)
            == if j == i || (PlaceAfter(names, prefixes, i, j) == None && OwnedBy(names[j], x)) then Some(x) else PlaceAfter(names, prefixes, i, j)
  {
    InitName(names[i]);
    OpenedOneMore(names, prefixes, i, Head(names[j]));
    if OwnedBy(names[j], x) {
      HeadOwns(names[j], x);
    }
  }

  // ------------------------------------------------------------- all together

  /** The registered prefixes and then the built-in ones that are not among them. */
  function AddMissing(prefixes: seq<string>, more: seq<string>): seq<string>
    decreases more
  {
    if more == [] then prefixes
    else AddMissing(if more[0] in prefixes then prefixes else prefixes + [more[0]], more[1..])
  }

  function Prefixes(registered: seq<string>, builtin: seq<string>): seq<string> {
    R.Dedup(R.LongestFirst(AddMissing(registered, builtin)))
  }

  lemma {:induction false} AddMissingIs(prefixes: seq<string>, more: seq<string>)
    ensures forall p :: p in AddMissing(prefixes, more) <==> p in prefixes || p in more
    decreases more
  {
    if more != [] {
      AddMissingIs(if more[0] in prefixes then prefixes else prefixes + [more[0]], more[1..]);
      assert more == [more[0]] + more[1..];
    }
  }

  lemma PrefixesAre(registered: seq<string>, builtin: seq<string>)
    ensures R.Descending(Prefixes(registered, builtin))
    ensures forall p :: p in Prefixes(registered, builtin) <==> p in registered || p in builtin
  {
    AddMissingIs(registered, builtin);
    R.LongestFirstIs(AddMissing(registered, builtin));
    R.DedupIs(R.LongestFirst(AddMissing(registered, builtin)));
  }

  /** Of the prefixes that own the name, `p` is one of the longest. */
  ghost predicate LongestOwner(registered: seq<string>, builtin: seq<string>, name: string, p: string) {
    && p in registered + builtin && OwnedBy(name, p)
    && forall q :: q in registered + builtin && OwnedBy(name, q) ==> |q| <= |p|
  }

  ghost predicate Unowned(registered: seq<string>, builtin: seq<string>, name: string) {
    forall p :: p in registered + builtin ==> !OwnedBy(name, p)
  }

  /** Another name no prefix owns has the same first segment. */
  ghost predicate SharesDir(names: seq<string>, registered: seq<string>, builtin: seq<string>, i: nat)
    requires i < |names|
  {
    && Dir(names[i]).Some?
    && exists j :: 0 <= j < |names| && j != i && Unowned(registered, builtin, names[j]) && Dir(names[j]) == Dir(names[i])
  }

  /** The first two rules in the words of the documentation. */
  lemma HomeIs(names: seq<string>, registered: seq<string>, builtin: seq<string>, i: nat)
    requires i < |names|
    ensures var home := Home(names, Prefixes(registered, builtin), i);
            if Unowned(registered, builtin, names[i])
            then home == if SharesDir(names, registered, builtin, i) then Dir(names[i]) else None
            else home.Some? && LongestOwner(registered, builtin, names[i], home.value)
  {
    var prefixes := Prefixes(registered, builtin);
    PrefixesAre(registered, builtin);
    OwnerIff(registered, builtin, names[i]);
    if !Unowned(registered, builtin, names[i]) {
      forall q | q in registered + builtin && OwnedBy(names[i], q)
        ensures |q| <= |Owner(prefixes, names[i]).value|
      {
        OwnerIsLongest(prefixes, names[i], q);
      }
      OwnerNone(prefixes, names[i]);
    } else if Dir(names[i]).Some? {
      var picks := Loose(names, prefixes, Dir(names[i]).value, |names|);
      assert LooseIn(names, prefixes, Dir(names[i]).value, i);
      assert i in picks;
      if |picks| >= 2 {
        var j := if picks[0] == i then picks[1] else picks[0];
        assert LooseIn(names, prefixes, Dir(names[i]).value, j);
        OwnerIff(registered, builtin, names[j]);
        assert SharesDir(names, registered, builtin, i);
      }
      if SharesDir(names, registered, builtin, i) {
        var j :| 0 <= j < |names| && j != i && Unowned(registered, builtin, names[j]) && Dir(names[j]) == Dir(names[i]);
        OwnerIff(registered, builtin, names[j]);
        assert LooseIn(names, prefixes, Dir(names[i]).value, j);
        assert j in picks;
      }
    }
  }

  lemma OwnerIff(registered: seq<string>, builtin: seq<string>, name: string)
    ensures Owner(Prefixes(registered, builtin), name) == None <==> Unowned(registered, builtin, name)
  {
    PrefixesAre(registered, builtin);
    OwnerNone(Prefixes(registered, builtin), name);
  }

  // --------------------------------------------------- what the third rule gives

  /**
   An `init-X` the first two rules leave, with something below X, always ends in a set: in X,
   unless an earlier `init-init-X` opened the set `init-X` and took it along.
   */
  lemma InitEndsInIff(names: seq<string>, prefixes: seq<string>, i: nat, x: string)
    requires i < |names| && names[i] == INIT + x && Asks(names, prefixes, i)
    ensures Place(names, prefixes, i).Some?
    ensures Place(names, prefixes, i) == Some(x) <==> !Swallowed(names, prefixes, i)
    ensures Swallowed(names, prefixes, i) ==> Place(names, prefixes, i) == Some(INIT + x)
  {
    InitName(names[i]);
    assert InitOf(INIT + x) == Some(x);
    if Swallowed(names, prefixes, i) {
      assert OpenedBefore(names, prefixes, |names|, names[i]);
    }
  }

  /** An `init-Y` opens the set Y exactly when it is the first of its name to decide and the first two rules made no such set. */
  lemma OpensIff(names: seq<string>, prefixes: seq<string>, i: nat)
    requires i < |names|
    ensures Opens(names, prefixes, i) <==>
            && Asks(names, prefixes, i) && !Swallowed(names, prefixes, i) && !HasHome(names, prefixes, InitOf(names[i]).value)
            && forall j: nat :: j < i && names[j] == names[i] ==> Swallowed(names, prefixes, j)
  {
    forall j: nat | j < i && names[j] == names[i] && Asks(names, prefixes, i)
      ensures Acts(names, prefixes, j) <==> !Swallowed(names, prefixes, j)
    {
      assert Home(names, prefixes, j) == Home(names, prefixes, i);
    }
  }

  lemma {:induction false} FirstActs(names: seq<string>, prefixes: seq<string>, i: nat) returns (j: nat)
    requires i < |names| && Acts(names, prefixes, i) && !HasHome(names, prefixes, InitOf(names[i]).value)
    ensures j <= i && names[j] == names[i] && Opens(names, prefixes, j)
  {
    if Opens(names, prefixes, i) {
      j := i;
    } else {
      var k: nat :| k < i && names[k] == names[i] && Acts(names, prefixes, k);
      j := FirstActs(names, prefixes, k);
    }
  }

  /** Some `init-X` the first two rules leave was not taken along. */
  ghost predicate SomeActs(names: seq<string>, prefixes: seq<string>, x: string) {
    exists j: nat :: j < |names| && names[j] == INIT + x && Acts(names, prefixes, j)
  }

  /**
   A name below X that the first two rules leave joins the set X exactly when some `init-X`
   decides for X; otherwise it stays alone.
   */
  lemma BelowJoinsIff(names: seq<string>, prefixes: seq<string>, i: nat, x: string)
    requires i < |names| && Dir(names[i]) == Some(x) && Home(names, prefixes, i) == None
    ensures Place(names, prefixes, i) == if SomeActs(names, prefixes, x) then Some(x) else None
  {
    NoHomeAbove(names, prefixes, i, x);
    InitName(names[i]);
    if SomeActs(names, prefixes, x) {
      var j: nat :| j < |names| && names[j] == INIT + x && Acts(names, prefixes, j);
      InitName(names[j]);
      assert InitOf(names[j]) == Some(x);
      var k := FirstActs(names, prefixes, j);
      assert OpenedBefore(names, prefixes, |names|, x);
    }
  }

  /** The first two rules make no set X while they leave a name below X. */
  lemma NoHomeAbove(names: seq<string>, prefixes: seq<string>, i: nat, x: string)
    requires i < |names| && Dir(names[i]) == Some(x) && Home(names, prefixes, i) == None
    ensures !HasHome(names, prefixes, x)
  {
    OwnerNone(prefixes, names[i]);
    forall k | 0 <= k < |names|
      ensures Home(names, prefixes, k) != Some(x)
    {
      OwnerNone(prefixes, names[k]);
    }
  }

  /** The name X itself joins only a set that an `init-X` opened: not one the first two rules made. */
  lemma BareJoinsIff(names: seq<string>, prefixes: seq<string>, i: nat)
    requires i < |names| && Dir(names[i]) == None && Home(names, prefixes, i) == None && !Asks(names, prefixes, i)
    ensures Place(names, prefixes, i)
            == if SomeActs(names, prefixes, names[i]) && !HasHome(names, prefixes, names[i]) then Some(names[i]) else None
  {
    var x := names[i];
    if SomeActs(names, prefixes, x) && !HasHome(names, prefixes, x) {
      var j: nat :| j < |names| && names[j] == INIT + x && Acts(names, prefixes, j);
      InitName(names[j]);
      assert InitOf(names[j]) == Some(x);
      var k := FirstActs(names, prefixes, j);
      assert OpenedBefore(names, prefixes, |names|, x);
    }
    if OpenedBefore(names, prefixes, |names|, x) {
      var j: nat :| j < |names| && names[j] == INIT + x && Opens(names, prefixes, j);
      InitName(names[j]);
    }
  }

  /** Whoever the third rule places is an `init-X` or belongs to X, and an `init-X` and something below X are there. */
  lemma WhyPlaced(names: seq<string>, prefixes: seq<string>, i: nat, x: string)
    requires i < |names| && Home(names, prefixes, i) == None && Place(names, prefixes, i) == Some(x)
    ensures Beside(names, x) && (names[i] == INIT + x || OwnedBy(names[i], x))
    ensures exists j: nat :: j < |names| && names[j] == INIT + x && Place(names, prefixes, j) == Some(x)
  {
    InitName(names[i]);
    if Acts(names, prefixes, i) {
      assert names[i] == INIT + x;
    } else {
      var j: nat :| j < |names| && names[j] == INIT + x && Opens(names, prefixes, j);
      InitName(names[j]);
      assert Acts(names, prefixes, j) && Place(names, prefixes, j) == Some(x);
    }
  }

  lemma DirIs(p: string, rest: string)
    requires '/' !in p
    ensures Dir(p + "/" + rest) == Some(p)
  {
    var name := p + "/" + rest;
    assert name[|p|] == '/' && name[..|p|] == p;
    HeadOwns(name, p);
  }

  /** Names of which no two share a first segment are left alone when there is no prefix. */
  lemma AllLoose(names: seq<string>, i: nat)
    requires i < |names| && forall j, k :: 0 <= j < k < |names| && Dir(names[j]).Some? ==> Dir(names[j]) != Dir(names[k])
    ensures Home(names, [], i) == None
  {
    if Dir(names[i]).Some? {
      var picks := Loose(names, [], Dir(names[i]).value, |names|);
      assert |picks| >= 2 ==> LooseIn(names, [], Dir(names[i]).value, picks[0]) && LooseIn(names, [], Dir(names[i]).value, picks[1]);
    }
  }

  lemma InitOfIs(y: string)
    requires y != "" && '/' !in y
    ensures InitOf(INIT + y) == Some(y) && '/' !in INIT + y && INIT + y != "" && Dir(INIT + y) == None
  {
    assert (INIT + y)[..|INIT|] == INIT && (INIT + y)[|INIT|..] == y;
    assert '/' !in INIT;
  }

  /** Two stacked `init-`, and something below each of the names they are for. */
  function Chain(x: string, k: string, z: string): seq<string> {
    [INIT + (INIT + x), INIT + x, x + "/" + k, (INIT + x) + "/" + z]
  }

  lemma ChainHomes(x: string, k: string, z: string)
    requires x != "" && '/' !in x
    ensures forall i :: 0 <= i < 4 ==> Home(Chain(x, k, z), [], i) == None
  {
    var names := Chain(x, k, z);
    InitOfIs(x);
    InitOfIs(INIT + x);
    DirIs(x, k);
    DirIs(INIT + x, z);
    assert |x| != |INIT + x|;
    forall i | 0 <= i < 4
      ensures Home(names, [], i) == None
    {
      AllLoose(names, i);
    }
  }

  lemma ChainBeside(x: string, k: string, z: string)
    ensures Beside(Chain(x, k, z), x) && Beside(Chain(x, k, z), INIT + x)
  {
    var names := Chain(x, k, z);
    assert names[2][..|x|] == x && names[2][|x|] == '/';
    assert names[3][..|INIT + x|] == INIT + x && names[3][|INIT + x|] == '/';
  }

  lemma ChainAlone(x: string, k: string, z: string)
    requires x != "" && '/' !in x && Swallowed(Chain(x, k, z), [], 1)
    ensures !SomeActs(Chain(x, k, z), [], x)
  {
    var names := Chain(x, k, z);
    InitOfIs(x);
    assert |names[0]| == |INIT + x| + 5;
    assert names[2][|x|] == '/' && names[3][|INIT + x|] == '/';
    assert names[2] != INIT + x && names[3] != INIT + x;
  }

  /**
   The third rule missing its mark: in `init-init-X`, `init-X`, `X/k`, `init-X/z` the second name
   is taken along by the first, and `X/k` beside it stays alone.
   */
  lemma InitTakenAlong(x: string, k: string, z: string)
    requires x != "" && '/' !in x
    ensures Place(Chain(x, k, z), [], 1) == Some(INIT + x) && Place(Chain(x, k, z), [], 2) == None
  {
    var names := Chain(x, k, z);
    ChainHomes(x, k, z);
    ChainBeside(x, k, z);
    InitOfIs(x);
    InitOfIs(INIT + x);
    OpensIff(names, [], 0);
    assert Opens(names, [], 0) && names[0] == INIT + names[1];
    assert Swallowed(names, [], 1);
    InitEndsInIff(names, [], 1, x);
    ChainAlone(x, k, z);
    DirIs(x, k);
    BelowJoinsIff(names, [], 2, x);
  }

  /** Two names no group took have different first segments. */
  ghost predicate NoLoosePair(names: seq<string>, owner: seq<int>)
    requires |names| == |owner|
  {
    forall i, j :: 0 <= i < j < |names| && owner[i] == owner[j] == -1 && Dir(names[i]).Some? ==> Dir(names[i]) != Dir(names[j])
  }

  method GroupNames(names: seq<string>, registered: seq<string>, builtin: seq<string>)
    returns (groups: seq<Group>, ghost owner: seq<int>)
    ensures Fits(|names|, groups, owner) && DistinctNames(groups) && NoneEmpty(groups)
    ensures forall i :: 0 <= i < |names| ==> At(groups, owner, i) == Place(names, Prefixes(registered, builtin), i)
    ensures NoLoosePair(names, owner)
  {
    var taken := new bool[|names|](_ => false);
    var prefixes := Prefixes(registered, builtin);
    groups, owner := PrefixPass(names, prefixes, taken);
    groups, owner := DirPass(names, prefixes, taken, groups, owner);
    groups, owner := InitPass(names, prefixes, taken, groups, owner);
    forall i, j | 0 <= i < j < |names| && owner[i] == owner[j] == -1 && Dir(names[i]).Some?
      ensures Dir(names[i]) != Dir(names[j])
    {
      assert At(groups, owner, i) == At(groups, owner, j) == None;
      HomeIs(names, registered, builtin, i);
      HomeIs(names, registered, builtin, j);
    }
  }
}
