/**
 The register's index: which credential each stored entry belongs to, and one row per
 credential. When do the rows partition the vault? Exactly when no group's parent path is
 itself a stored name that no other group claims.
 */
module Index {
  import opened Wrappers
  import opened Shapes

  datatype Cred = Cred(provider: Option<string>, members: seq<string>)
  datatype Index = Index(owner: map<string, string>, creds: map<string, Cred>)
  datatype Row = Row(path: string, provider: Option<string>, members: seq<string>)

  function Held(names: seq<string>, members: seq<string>): (out: seq<string>)
    ensures forall m :: m in out <==> m in members && m in names
    ensures (forall m :: m in members ==> m in names) ==> out == members
  {
    if members == [] then []
    else
      var m := members[|members| - 1];
      var rest := Held(names, members[..|members| - 1]);
      assert members == members[..|members| - 1] + [m];
      if m in names then rest + [m] else rest
  }

  /** Every member now belongs to `path`. */
  function Owned(owner: map<string, string>, members: seq<string>, path: string): (out: map<string, string>)
    ensures forall m :: m in out <==> m in owner || m in members
    ensures forall m :: m in out ==> out[m] == if m in members then path else owner[m]
  {
    owner + map m | m in members :: path
  }

  function AddShape(names: seq<string>, ix: Index, s: Shape): Index {
    var members := Held(names, s.members);
    if members == [] then ix
    else Index(Owned(ix.owner, members, s.name), ix.creds[s.name := Cred(s.provider, members)])
  }

  function AddShapes(names: seq<string>, shapes: seq<Shape>): Index {
    if shapes == [] then Index(map[], map[])
    else AddShape(names, AddShapes(names, shapes[..|shapes| - 1]), shapes[|shapes| - 1])
  }

  function AddName(ix: Index, n: string): Index {
    if n in ix.owner then ix
    else Index(ix.owner[n := n], ix.creds[n := Cred(None, [n])])
  }

  function AddNames(ix: Index, names: seq<string>): Index {
    if names == [] then ix
    else AddName(AddNames(ix, names[..|names| - 1]), names[|names| - 1])
  }

  /** `Index::build`. */
  method Build(names: seq<string>, shapes: seq<Shape>) returns (ix: Index)
    ensures ix == AddNames(AddShapes(names, shapes), names)
  {
    var owner: map<string, string> := map[];
    var creds: map<string, Cred> := map[];
    for i := 0 to |shapes|
      invariant Index(owner, creds) == AddShapes(names, shapes[..i])
    {
      assert shapes[..i + 1][..i] == shapes[..i];
      var members := Held(names, shapes[i].members);
      if members == [] {
        continue;
      }
      owner := Owned(owner, members, shapes[i].name);
      creds := creds[shapes[i].name := Cred(shapes[i].provider, members)];
    }
    assert shapes[..|shapes|] == shapes;
    ghost var base := Index(owner, creds);
    for i := 0 to |names|
      invariant Index(owner, creds) == AddNames(base, names[..i])
    {
      assert names[..i + 1][..i] == names[..i];
      if names[i] in owner {
        continue;
      }
      owner := owner[names[i] := names[i]];
      creds := creds[names[i] := Cred(None, [names[i]])];
    }
    assert names[..|names|] == names;
    ix := Index(owner, creds);
  }

  /** The rows to draw: an open bundle's members one by one, else every credential the filter lets through. */
  function Rows(ix: Index, open: string, shown: (string, Cred) -> bool): set<Row> {
    if open in ix.creds && |ix.creds[open].members| > 1 then
      set m | m in ix.creds[open].members :: Row(m, None, [m])
    else
      set p | p in ix.creds && shown(p, ix.creds[p]) :: Row(p, ix.creds[p].provider, ix.creds[p].members)
  }

  /** An open bundle is drawn as its members, one row each; else every credential the filter lets through has its row. */
  lemma RowIff(ix: Index, open: string, shown: (string, Cred) -> bool, r: Row)
    ensures r in Rows(ix, open, shown) <==>
              if open in ix.creds && |ix.creds[open].members| >= 2
              then r.path in ix.creds[open].members && r.provider == None && r.members == [r.path]
              else r.path in ix.creds && shown(r.path, ix.creds[r.path]) && Cred(r.provider, r.members) == ix.creds[r.path]
  {
  }

  // --------------------------------------------------------- what build makes

  function SetOf(names: seq<string>): set<string> {
    set n | n in names
  }

  ghost predicate ClaimedBy(shapes: seq<Shape>, i: int, n: string) {
    0 <= i < |shapes| && n in shapes[i].members
  }

  ghost predicate Claimed(shapes: seq<Shape>, n: string) {
    exists i :: 0 <= i < |shapes| && ClaimedBy(shapes, i, n)
  }

  ghost predicate Named(shapes: seq<Shape>, p: string) {
    exists i :: 0 <= i < |shapes| && shapes[i].name == p
  }

  /** The last shape of a name is the one its row shows. */
  ghost predicate LastNamed(shapes: seq<Shape>, i: int, p: string) {
    0 <= i < |shapes| && shapes[i].name == p && forall j :: i < j < |shapes| ==> shapes[j].name != p
  }

  ghost predicate OwnersAre(shapes: seq<Shape>, owner: map<string, string>) {
    && (forall n :: n in owner <==> Claimed(shapes, n))
    && (forall n, i :: ClaimedBy(shapes, i, n) ==> n in owner && owner[n] == shapes[i].name)
  }

  lemma OwnersLater(rest: seq<Shape>, s: Shape, owner: map<string, string>)
    requires OwnersAre(rest, owner) && forall m :: m in s.members ==> !Claimed(rest, m)
    ensures OwnersAre(rest + [s], Owned(owner, s.members, s.name))
  {
    var shapes, k, owner' := rest + [s], |rest|, Owned(owner, s.members, s.name);
    assert forall i :: 0 <= i < k ==> shapes[i] == rest[i];
    forall n, i | ClaimedBy(shapes, i, n)
      ensures n in owner' && owner'[n] == shapes[i].name
    {
      assert i < k ==> ClaimedBy(rest, i, n);
    }
    forall n | n in owner'
      ensures Claimed(shapes, n)
    {
      if n in s.members {
        assert ClaimedBy(shapes, k, n);
      } else {
        var i :| 0 <= i < |rest| && ClaimedBy(rest, i, n);
        assert ClaimedBy(shapes, i, n);
      }
    }
  }

  /** The last shape claims names no earlier one claimed, and all of them are stored. */
  lemma LastClaimsNew(names: seq<string>, shapes: seq<Shape>, alone: nat)
    requires WellShaped(SetOf(names), shapes, alone) && shapes != []
    ensures forall m :: m in shapes[|shapes| - 1].members ==> m in names && !Claimed(shapes[..|shapes| - 1], m)
    ensures shapes[|shapes| - 1].members != []
  {
    var k := |shapes| - 1;
    assert Single(SetOf(names), shapes[k]) || Group(SetOf(names), shapes[k]);
    forall m, i: nat | m in shapes[k].members && i < k && m in shapes[i].members
      ensures i == k
    {
      MembersDisjoint(SetOf(names), shapes, alone, i, k, m);
    }
  }

  lemma WellShapedPrefix(names: set<string>, shapes: seq<Shape>, alone: nat)
    requires WellShaped(names, shapes, alone) && shapes != []
    ensures WellShaped(names, shapes[..|shapes| - 1], if alone == |shapes| then alone - 1 else alone)
  {
  }

  /** Each shape in turn claims stored names nobody before it claimed. */
  ghost predicate ClaimInTurn(names: seq<string>, shapes: seq<Shape>) {
    shapes == [] ||
    (var rest, s := shapes[..|shapes| - 1], shapes[|shapes| - 1];
     && ClaimInTurn(names, rest) && s.members != []
     && (forall m :: m in s.members ==> m in names && !Claimed(rest, m)))
  }

  lemma {:induction false} WellShapedInTurn(names: seq<string>, shapes: seq<Shape>, alone: nat)
    requires WellShaped(SetOf(names), shapes, alone)
    ensures ClaimInTurn(names, shapes)
  {
    if shapes != [] {
      LastClaimsNew(names, shapes, alone);
      WellShapedPrefix(SetOf(names), shapes, alone);
      WellShapedInTurn(names, shapes[..|shapes| - 1], if alone == |shapes| then alone - 1 else alone);
    }
  }

  lemma {:induction false} AfterInTurn(names: seq<string>, shapes: seq<Shape>)
    requires ClaimInTurn(names, shapes)
    ensures OwnersAre(shapes, AddShapes(names, shapes).owner)
    ensures CredsAre(shapes, AddShapes(names, shapes).creds)
  {
    if shapes != [] {
      var rest, s := shapes[..|shapes| - 1], shapes[|shapes| - 1];
      assert shapes == rest + [s];
      AfterInTurn(names, rest);
      var base := AddShapes(names, rest);
      OwnersLater(rest, s, base.owner);
      NamedLater(rest, s, AddShape(names, base, s), base);
    }
  }

  lemma AfterShapes(names: seq<string>, shapes: seq<Shape>, alone: nat)
    requires WellShaped(SetOf(names), shapes, alone)
    ensures OwnersAre(shapes, AddShapes(names, shapes).owner)
    ensures CredsAre(shapes, AddShapes(names, shapes).creds)
  {
    WellShapedInTurn(names, shapes, alone);
    AfterInTurn(names, shapes);
  }

  /** The rows of `creds` are the last shapes of their names. */
  ghost predicate CredsAre(shapes: seq<Shape>, creds: map<string, Cred>) {
    && (forall p :: p in creds <==> Named(shapes, p))
    && (forall p, i :: LastNamed(shapes, i, p) ==> p in creds && creds[p] == Cred(shapes[i].provider, shapes[i].members))
  }

  lemma NamedLater(rest: seq<Shape>, s: Shape, ix: Index, base: Index)
    requires ix.creds == base.creds[s.name := Cred(s.provider, s.members)] && CredsAre(rest, base.creds)
    ensures CredsAre(rest + [s], ix.creds)
  {
    var shapes, k := rest + [s], |rest|;
    forall p
      ensures p in ix.creds <==> Named(shapes, p)
    {
      if Named(rest, p) {
        var i :| 0 <= i < |rest| && rest[i].name == p;
        assert shapes[i].name == p;
      }
      if Named(shapes, p) && p != s.name {
        var i :| 0 <= i < |shapes| && shapes[i].name == p;
        assert rest[i].name == p;
      }
      assert shapes[k] == s;
    }
    forall p, i | LastNamed(shapes, i, p)
      ensures p in ix.creds && ix.creds[p] == Cred(shapes[i].provider, shapes[i].members)
    {
      if i < k {
        assert forall j :: 0 <= j < k ==> shapes[j] == rest[j];
        assert LastNamed(rest, i, p) && shapes[k].name != p;
      }
    }
  }

  lemma {:induction false} AfterNames(base: Index, names: seq<string>)
    ensures var ix := AddNames(base, names);
            && (forall n :: n in ix.owner <==> n in base.owner || n in names)
            && (forall n :: n in base.owner ==> ix.owner[n] == base.owner[n])
            && (forall n :: n in ix.owner && n !in base.owner ==> ix.owner[n] == n)
            && (forall p :: p in ix.creds <==> p in base.creds || (p in names && p !in base.owner))
            && (forall p :: p in ix.creds ==> ix.creds[p] == if p in names && p !in base.owner then Cred(None, [p]) else base.creds[p])
  {
    if names != [] {
      var k := |names| - 1;
      AfterNames(base, names[..k]);
      assert names == names[..k] + [names[k]];
    }
  }

  /** A stored name belongs to the credential whose shape claims it, or to its own. */
  lemma OwnerMeans(names: seq<string>, shapes: seq<Shape>, alone: nat, n: string, path: string)
    requires WellShaped(SetOf(names), shapes, alone) && n in names
    ensures var ix := AddNames(AddShapes(names, shapes), names);
            n in ix.owner && (ix.owner[n] == path <==>
              (exists i :: ClaimedBy(shapes, i, n) && shapes[i].name == path) || (n == path && !Claimed(shapes, n)))
  {
    AfterShapes(names, shapes, alone);
    AfterNames(AddShapes(names, shapes), names);
    if Claimed(shapes, n) {
      var i :| 0 <= i < |shapes| && ClaimedBy(shapes, i, n);
      assert n in AddShapes(names, shapes).owner && AddShapes(names, shapes).owner[n] == shapes[i].name;
    }
  }

  /** A credential under a name that is not stored is a group, of more than one entry. */
  lemma GroupMeans(names: seq<string>, shapes: seq<Shape>, alone: nat, path: string)
    requires WellShaped(SetOf(names), shapes, alone) && path !in names
    ensures var ix := AddNames(AddShapes(names, shapes), names);
            && (path in ix.creds <==> GroupNamed(shapes, alone, path))
            && (path in ix.creds ==> |ix.creds[path].members| > 1)
  {
    var base := AddShapes(names, shapes);
    AfterShapes(names, shapes, alone);
    AfterNames(base, names);
    NamedAsGroup(names, shapes, alone, path);
    if Named(shapes, path) {
      var i := LastIndex(shapes, path);
      assert GroupNamed(shapes, alone, path) && base.creds[path].members == shapes[i].members;
      SizeOfGroup(names, shapes, alone, i, path);
    }
  }

  ghost predicate GroupNamed(shapes: seq<Shape>, alone: nat, path: string) {
    exists i :: alone <= i < |shapes| && shapes[i].name == path
  }

  lemma NamedAsGroup(names: seq<string>, shapes: seq<Shape>, alone: nat, path: string)
    requires WellShaped(SetOf(names), shapes, alone) && path !in names
    ensures Named(shapes, path) <==> GroupNamed(shapes, alone, path)
  {
    forall i | 0 <= i < alone
      ensures shapes[i].name != path
    {
      assert Single(SetOf(names), shapes[i]);
    }
  }

  lemma SizeOfGroup(names: seq<string>, shapes: seq<Shape>, alone: nat, i: nat, path: string)
    requires WellShaped(SetOf(names), shapes, alone) && path !in names && i < |shapes| && shapes[i].name == path
    ensures |shapes[i].members| > 1
  {
    assert forall k :: 0 <= k < alone ==> Single(SetOf(names), shapes[k]);
    assert forall k :: alone <= k < |shapes| ==> Group(SetOf(names), shapes[k]);
  }

  // -------------------------------------------------------------- the partition

  ghost predicate InRow(ix: Index, p: string, n: string) {
    p in ix.creds && n in ix.creds[p].members
  }

  /** Every stored name is in exactly one row, and that row is its owner's. */
  ghost predicate Partitions(ix: Index, names: seq<string>) {
    forall n :: n in names ==> n in ix.owner && forall p :: InRow(ix, p, n) <==> p == ix.owner[n]
  }

  /** A stored name no group claims is not also a group's parent path. */
  ghost predicate NoParentStored(names: seq<string>, shapes: seq<Shape>, alone: nat)
    requires alone <= |shapes|
  {
    forall i :: alone <= i < |shapes| && shapes[i].name in names ==> Claimed(shapes[alone..], shapes[i].name)
  }

  lemma RowsPartitionIff(names: seq<string>, shapes: seq<Shape>, alone: nat)
    requires WellShaped(SetOf(names), shapes, alone)
    ensures Partitions(AddNames(AddShapes(names, shapes), names), names) <==> NoParentStored(names, shapes, alone)
  {
    if NoParentStored(names, shapes, alone) {
      forall n | n in names
        ensures n in AddNames(AddShapes(names, shapes), names).owner
        ensures forall p :: InRow(AddNames(AddShapes(names, shapes), names), p, n) <==> p == AddNames(AddShapes(names, shapes), names).owner[n]
      {
        RowOfName(names, shapes, alone, n);
      }
    } else {
      var i :| alone <= i < |shapes| && shapes[i].name in names && !Claimed(shapes[alone..], shapes[i].name);
      StoredParentBreaks(names, shapes, alone, i);
    }
  }

  lemma RowOfName(names: seq<string>, shapes: seq<Shape>, alone: nat, n: string)
    requires WellShaped(SetOf(names), shapes, alone) && NoParentStored(names, shapes, alone) && n in names
    ensures var ix := AddNames(AddShapes(names, shapes), names);
            n in ix.owner && forall p :: InRow(ix, p, n) <==> p == ix.owner[n]
  {
    var base := AddShapes(names, shapes);
    var ix := AddNames(base, names);
    AfterShapes(names, shapes, alone);
    AfterNames(base, names);
    if n in base.owner {
      var i :| 0 <= i < |shapes| && ClaimedBy(shapes, i, n);
      LastOfItsName(names, shapes, alone, i);
      forall p
        ensures InRow(ix, p, n) <==> p == ix.owner[n]
      {
        if InRow(ix, p, n) {
          RowComesFrom(names, shapes, alone, p, n);
        }
        if p == shapes[i].name {
          NotOverwritten(names, shapes, alone, i);
        }
      }
    } else {
      forall p
        ensures InRow(ix, p, n) <==> p == n
      {
        if InRow(ix, p, n) {
          RowComesFrom(names, shapes, alone, p, n);
        }
      }
    }
  }

  /** A row that shows `n` is the row of a shape claiming `n`, or `n`'s own. */
  lemma RowComesFrom(names: seq<string>, shapes: seq<Shape>, alone: nat, p: string, n: string)
    requires WellShaped(SetOf(names), shapes, alone)
    requires InRow(AddNames(AddShapes(names, shapes), names), p, n)
    ensures (exists i :: ClaimedBy(shapes, i, n) && shapes[i].name == p) || (p == n && n !in AddShapes(names, shapes).owner)
  {
    var base := AddShapes(names, shapes);
    AfterShapes(names, shapes, alone);
    AfterNames(base, names);
    if !(p in names && p !in base.owner) {
      var i := LastIndex(shapes, p);
      assert ClaimedBy(shapes, i, n);
    }
  }

  lemma {:induction false} LastIndex(shapes: seq<Shape>, p: string) returns (i: nat)
    requires Named(shapes, p)
    ensures LastNamed(shapes, i, p)
  {
    var k := |shapes| - 1;
    if shapes[k].name == p {
      i := k;
    } else {
      var j :| 0 <= j < |shapes| && shapes[j].name == p;
      assert shapes[..k][j].name == p;
      i := LastIndex(shapes[..k], p);
      assert forall j :: i < j < k ==> shapes[j] == shapes[..k][j];
    }
  }

  /** With no stored parent left over, a shape that claims anything is the last of its name. */
  lemma LastOfItsName(names: seq<string>, shapes: seq<Shape>, alone: nat, i: nat)
    requires WellShaped(SetOf(names), shapes, alone) && NoParentStored(names, shapes, alone) && i < |shapes|
    ensures LastNamed(shapes, i, shapes[i].name)
  {
    forall j | i < j < |shapes|
      ensures shapes[j].name != shapes[i].name
    {
      if i < alone && alone <= j && shapes[j].name == shapes[i].name {
        assert shapes[i].name in names;
        GroupsDontClaim(names, shapes, alone, i);
      }
    }
  }

  lemma GroupsDontClaim(names: seq<string>, shapes: seq<Shape>, alone: nat, i: nat)
    requires WellShaped(SetOf(names), shapes, alone) && i < alone
    ensures !Claimed(shapes[alone..], shapes[i].name)
  {
    forall k | 0 <= k < |shapes[alone..]|
      ensures !ClaimedBy(shapes[alone..], k, shapes[i].name)
    {
      assert shapes[alone..][k] == shapes[alone + k];
    }
  }

  /** ... and no plain entry overwrites its row. */
  lemma NotOverwritten(names: seq<string>, shapes: seq<Shape>, alone: nat, i: nat)
    requires WellShaped(SetOf(names), shapes, alone) && NoParentStored(names, shapes, alone) && i < |shapes|
    ensures shapes[i].name in names ==> shapes[i].name in AddShapes(names, shapes).owner
  {
    AfterShapes(names, shapes, alone);
    var p := shapes[i].name;
    if i < alone {
      assert ClaimedBy(shapes, i, p);
    } else if p in names {
      var k :| 0 <= k < |shapes[alone..]| && ClaimedBy(shapes[alone..], k, p);
      assert ClaimedBy(shapes, alone + k, p);
    }
  }

  /** A stored, unclaimed parent either hides its group's row or is hidden by it. */
  lemma StoredParentBreaks(names: seq<string>, shapes: seq<Shape>, alone: nat, i: nat)
    requires WellShaped(SetOf(names), shapes, alone)
    requires alone <= i < |shapes| && shapes[i].name in names && !Claimed(shapes[alone..], shapes[i].name)
    ensures !Partitions(AddNames(AddShapes(names, shapes), names), names)
  {
    var base := AddShapes(names, shapes);
    var ix := AddNames(base, names);
    var s := shapes[i];
    var p := s.name;
    AfterShapes(names, shapes, alone);
    AfterNames(base, names);
    ParentNotMember(SetOf(names), s);
    if Claimed(shapes, p) {
      // A bundle by itself: its row was replaced by the group's, which does not hold it.
      var j :| 0 <= j < |shapes| && ClaimedBy(shapes, j, p);
      if alone <= j {
        assert ClaimedBy(shapes[alone..], j - alone, p);
      }
      assert LastNamed(shapes, i, p);
      assert !InRow(ix, p, p) && ix.owner[p] == p;
    } else {
      // A plain entry: its row replaced the group's, whose members are in no row of their owner.
      var m := s.members[0];
      assert ClaimedBy(shapes, i, m);
      assert ix.creds[p] == Cred(None, [p]);
      assert !InRow(ix, p, m) && ix.owner[m] == p;
    }
  }

  lemma ParentNotMember(names: set<string>, s: Shape)
    requires Group(names, s)
    ensures s.name !in s.members
  {
    forall m | m in s.members
      ensures |m| > |s.name|
    {
      assert m == s.name + "/" + Cut(m).value.1;
    }
  }

  lemma ShapeNamed(names: set<string>, s: Shape)
    requires Single(names, s) || Group(names, s)
    requires forall n :: n in names ==> n != "" && n[0] != '/'
    ensures s.name != ""
  {
    if Group(names, s) {
      var m := s.members[0];
      assert m in s.members;
      assert m == s.name + "/" + Cut(m).value.1;
      assert m[|s.name|] == '/';
    }
  }

  /** Stored names are non-empty and do not start with a slash, so the unfiltered register shows every credential. */
  lemma UnfilteredRowsAreCreds(names: seq<string>, shapes: seq<Shape>, alone: nat)
    requires WellShaped(SetOf(names), shapes, alone)
    requires forall n :: n in names ==> n != "" && n[0] != '/'
    ensures var ix := AddNames(AddShapes(names, shapes), names);
            Rows(ix, "", (p, c) => true) == set p | p in ix.creds :: Row(p, ix.creds[p].provider, ix.creds[p].members)
  {
    var base := AddShapes(names, shapes);
    AfterShapes(names, shapes, alone);
    AfterNames(base, names);
    forall i | 0 <= i < |shapes|
      ensures shapes[i].name != ""
    {
      ShapeNamed(SetOf(names), shapes[i]);
    }
  }
}
