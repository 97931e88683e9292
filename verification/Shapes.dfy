/**
 Which stored entries are one credential: a JSON bundle by itself, and siblings under a
 shared parent whose keys are a credential shape. The provider table is a fixed parameter.
 */
module Shapes {
  import opened Wrappers

  datatype Entry = Entry(name: string, value: string, meta: string)
  datatype Field = Field(key: string, value: string, meta: string)
  datatype Shape = Shape(name: string, provider: Option<string>, members: seq<string>)

  /**
   What the provider table answers: the provider of a JSON bundle, whether a value is text,
   the provider a meta names, and for a set of sibling keys whether they are a credential at
   all and then whose.
   */
  datatype Table = Table(
    bundle: Entry -> Option<string>,
    isText: string -> bool,
    named: string -> Option<string>,
    recognise: (seq<string>, Option<string>, map<string, string>) -> Option<Option<string>>)

  /** `rsplit_once('/')`: the parent path and the last segment. */
  function Cut(name: string): (r: Option<(string, string)>)
    ensures r.Some? <==> '/' in name
    ensures r.Some? ==> name == r.value.0 + "/" + r.value.1 && '/' !in r.value.1
  {
    if name == "" then None
    else if name[|name| - 1] == '/' then
      Some((name[..|name| - 1], ""))
    else
      var rest := Cut(name[..|name| - 1]);
      assert name == name[..|name| - 1] + [name[|name| - 1]];
      if rest.None? then None else Some((rest.value.0, rest.value.1 + [name[|name| - 1]]))
  }

  lemma FrontOfPath(p: string, k: string)
    requires k != ""
    ensures (p + "/" + k)[..|p + "/" + k| - 1] == p + "/" + k[..|k| - 1]
    ensures (p + "/" + k)[|p + "/" + k| - 1] == k[|k| - 1]
  {
  }

  lemma {:induction false} CutUnique(p: string, k: string)
    requires '/' !in k
    ensures Cut(p + "/" + k) == Some((p, k))
  {
    if k == "" {
      assert (p + "/" + k)[..|p|] == p;
    } else {
      var init := k[..|k| - 1];
      CutUnique(p, init);
      FrontOfPath(p, k);
      assert k == init + [k[|k| - 1]];
    }
  }

  /** A sibling that may fuse: under `parent`, and not a bundle by itself. */
  predicate Child(tab: Table, e: Entry, parent: string) {
    tab.bundle(e).None? && Cut(e.name).Some? && Cut(e.name).value.0 == parent
  }

  function FieldOf(e: Entry): Field
    requires Cut(e.name).Some?
  {
    Field(Cut(e.name).value.1, e.value, e.meta)
  }

  function FieldsUnder(tab: Table, rows: seq<Entry>, parent: string): seq<Field> {
    if rows == [] then []
    else
      var e := rows[|rows| - 1];
      var rest := FieldsUnder(tab, rows[..|rows| - 1], parent);
      if Child(tab, e, parent) then rest + [FieldOf(e)] else rest
  }

  function KeysOf(tab: Table, fields: seq<Field>): seq<string> {
    if fields == [] then []
    else
      var f := fields[|fields| - 1];
      var rest := KeysOf(tab, fields[..|fields| - 1]);
      if tab.isText(f.value) then rest + [f.key] else rest
  }

  function ValuesOf(tab: Table, fields: seq<Field>): map<string, string> {
    if fields == [] then map[]
    else
      var f := fields[|fields| - 1];
      var rest := ValuesOf(tab, fields[..|fields| - 1]);
      if tab.isText(f.value) then rest[f.key := f.value] else rest
  }

  /** The one provider every sibling that names any names. */
  ghost predicate AllAgreeOn(tab: Table, fields: seq<Field>, p: string) {
    && (exists i :: 0 <= i < |fields| && tab.named(fields[i].meta) == Some(p))
    && forall i :: 0 <= i < |fields| ==> tab.named(fields[i].meta).None? || tab.named(fields[i].meta) == Some(p)
  }

  ghost function Agreed(tab: Table, fields: seq<Field>): Option<string> {
    if exists p: string :: AllAgreeOn(tab, fields, p) then
      var p: string :| AllAgreeOn(tab, fields, p);
      Some(p)
    else
      None
  }

  method AgreedProvider(tab: Table, fields: seq<Field>) returns (agreed: Option<string>)
    ensures agreed == Agreed(tab, fields)
  {
    agreed := None;
    ghost var who := 0;
    for i := 0 to |fields|
      invariant agreed.None? ==> forall j :: 0 <= j < i ==> tab.named(fields[j].meta).None?
      invariant agreed.Some? ==> who < i && tab.named(fields[who].meta) == agreed
      invariant agreed.Some? ==> forall j :: 0 <= j < i ==> tab.named(fields[j].meta).None? || tab.named(fields[j].meta) == agreed
    {
      var p := tab.named(fields[i].meta);
      if p.Some? {
        if agreed.None? {
          agreed := p;
          who := i;
        } else if agreed != p {
          assert tab.named(fields[who].meta) == agreed && tab.named(fields[i].meta) == p;
          return None;
        }
      }
    }
    if agreed.Some? {
      assert AllAgreeOn(tab, fields, agreed.value);
    }
  }

  /** What the siblings under one parent make, if they make anything. */
  ghost function Fused(tab: Table, rows: seq<Entry>, parent: string): Option<Shape> {
    var fields := FieldsUnder(tab, rows, parent);
    var keys := KeysOf(tab, fields);
    if |keys| < 2 then None
    else
      match tab.recognise(keys, Agreed(tab, fields), ValuesOf(tab, fields))
      case None => None
      case Some(provider) => Some(Shape(parent, provider, Paths(parent, keys)))
  }

  function Paths(parent: string, keys: seq<string>): seq<string> {
    seq(|keys|, i requires 0 <= i < |keys| => parent + "/" + keys[i])
  }

  function Alone(tab: Table, e: Entry): Shape
    requires tab.bundle(e).Some?
  {
    Shape(e.name, tab.bundle(e), [e.name])
  }

  ghost predicate DistinctNames(rows: seq<Entry>) {
    forall i, j :: 0 <= i < j < |rows| ==> rows[i].name != rows[j].name
  }

  /** The bundles by themselves, in row order. */
  function Bundles(tab: Table, rows: seq<Entry>): seq<Shape> {
    if rows == [] then []
    else
      var e := rows[|rows| - 1];
      var rest := Bundles(tab, rows[..|rows| - 1]);
      if tab.bundle(e).Some? then rest + [Alone(tab, e)] else rest
  }

  /** What a parent contributes to the list is what its siblings fuse into. */
  ghost predicate FusedExactly(tab: Table, rows: seq<Entry>, shapes: seq<Shape>) {
    && (forall i :: 0 <= i < |shapes| ==> Fused(tab, rows, shapes[i].name) == Some(shapes[i]))
    && (forall i, j :: 0 <= i < j < |shapes| ==> shapes[i].name != shapes[j].name)
    && (forall p: string :: Fused(tab, rows, p).Some? ==> Fused(tab, rows, p).value in shapes)
  }

  lemma {:induction false} UsedIsBundle(tab: Table, rows: seq<Entry>, used: set<string>, i: nat)
    requires DistinctNames(rows) && i < |rows|
    requires forall n :: n in used <==> exists j :: 0 <= j < |rows| && rows[j].name == n && tab.bundle(rows[j]).Some?
    ensures rows[i].name in used <==> tab.bundle(rows[i]).Some?
  {
    if rows[i].name in used {
      var j :| 0 <= j < |rows| && rows[j].name == rows[i].name && tab.bundle(rows[j]).Some?;
      assert i == j;
    }
  }

  /** `shapes_of`: bundles first, then one walk grouping the rest by parent, then the groups. */
  method ShapesOf(tab: Table, rows: seq<Entry>) returns (shapes: seq<Shape>, alone: nat)
    requires DistinctNames(rows)
    ensures alone <= |shapes| && shapes[..alone] == Bundles(tab, rows)
    ensures FusedExactly(tab, rows, shapes[alone..])
  {
    shapes := [];
    var used: set<string> := {};
    for i := 0 to |rows|
      invariant shapes == Bundles(tab, rows[..i])
      invariant forall n :: n in used <==> exists j :: 0 <= j < i && rows[j].name == n && tab.bundle(rows[j]).Some?
    {
      assert rows[..i + 1][..i] == rows[..i];
      var provider := tab.bundle(rows[i]);
      if provider.Some? {
        used := used + {rows[i].name};
        shapes := shapes + [Shape(rows[i].name, provider, [rows[i].name])];
      }
    }
    assert rows[..|rows|] == rows;
    alone := |shapes|;
    var byParent := GroupByParent(tab, rows, used);
    var fused := FuseAll(tab, rows, byParent);
    shapes := shapes + fused;
  }

  method GroupByParent(tab: Table, rows: seq<Entry>, used: set<string>) returns (byParent: map<string, seq<Field>>)
    requires DistinctNames(rows)
    requires forall n :: n in used <==> exists j :: 0 <= j < |rows| && rows[j].name == n && tab.bundle(rows[j]).Some?
    ensures forall p: string :: p in byParent ==> byParent[p] == FieldsUnder(tab, rows, p)
    ensures forall p: string :: p !in byParent ==> FieldsUnder(tab, rows, p) == []
  {
    byParent := map[];
    for i := 0 to |rows|
      invariant forall p: string :: p in byParent ==> byParent[p] == FieldsUnder(tab, rows[..i], p)
      invariant forall p: string :: p !in byParent ==> FieldsUnder(tab, rows[..i], p) == []
    {
      assert rows[..i + 1][..i] == rows[..i];
      UsedIsBundle(tab, rows, used, i);
      if rows[i].name in used {
        continue;
      }
      var cut := Cut(rows[i].name);
      if cut.None? {
        continue;
      }
      var (parent, field) := cut.value;
      var sofar := if parent in byParent then byParent[parent] else [];
      byParent := byParent[parent := sofar + [Field(field, rows[i].value, rows[i].meta)]];
    }
    assert rows[..|rows|] == rows;
  }

  method FuseAll(tab: Table, rows: seq<Entry>, byParent: map<string, seq<Field>>) returns (fused: seq<Shape>)
    requires forall p: string :: p in byParent ==> byParent[p] == FieldsUnder(tab, rows, p)
    requires forall p: string :: p !in byParent ==> FieldsUnder(tab, rows, p) == []
    ensures FusedExactly(tab, rows, fused)
  {
    fused := [];
    var todo := byParent.Keys;
    while todo != {}
      invariant todo <= byParent.Keys
      invariant forall i :: 0 <= i < |fused| ==> fused[i].name !in todo && Fused(tab, rows, fused[i].name) == Some(fused[i])
      invariant forall i, j :: 0 <= i < j < |fused| ==> fused[i].name != fused[j].name
      invariant forall p: string :: p in byParent.Keys - todo && Fused(tab, rows, p).Some? ==> Fused(tab, rows, p).value in fused
    {
      var parent :| parent in todo;
      todo := todo - {parent};
      var shape := FuseOne(tab, rows, parent, byParent[parent]);
      if shape.Some? {
        fused := fused + [shape.value];
      }
    }
  }

  method FuseOne(tab: Table, rows: seq<Entry>, parent: string, fields: seq<Field>) returns (shape: Option<Shape>)
    requires fields == FieldsUnder(tab, rows, parent)
    ensures shape == Fused(tab, rows, parent)
  {
    var agreed := AgreedProvider(tab, fields);
    var values: map<string, string> := map[];
    var keys: seq<string> := [];
    for i := 0 to |fields|
      invariant keys == KeysOf(tab, fields[..i]) && values == ValuesOf(tab, fields[..i])
    {
      assert fields[..i + 1][..i] == fields[..i];
      if tab.isText(fields[i].value) {
        values := values[fields[i].key := fields[i].value];
        keys := keys + [fields[i].key];
      }
    }
    assert fields[..|fields|] == fields;
    if |keys| < 2 {
      return None;
    }
    var known := tab.recognise(keys, agreed, values);
    if known.None? {
      return None;
    }
    return Some(Shape(parent, known.value, Paths(parent, keys)));
  }

  // ------------------------------------------------------ what the walk goes by

  lemma FieldsSnoc(tab: Table, rows: seq<Entry>, e: Entry, q: string)
    ensures FieldsUnder(tab, rows + [e], q)
            == if Child(tab, e, q) then FieldsUnder(tab, rows, q) + [FieldOf(e)] else FieldsUnder(tab, rows, q)
  {
    assert (rows + [e])[..|rows|] == rows;
  }

  lemma BundlesSnoc(tab: Table, rows: seq<Entry>, e: Entry)
    ensures Bundles(tab, rows + [e]) == if tab.bundle(e).Some? then Bundles(tab, rows) + [Alone(tab, e)] else Bundles(tab, rows)
  {
    assert (rows + [e])[..|rows|] == rows;
  }

  lemma KeysSnoc(tab: Table, fields: seq<Field>, f: Field)
    ensures KeysOf(tab, fields + [f]) == if tab.isText(f.value) then KeysOf(tab, fields) + [f.key] else KeysOf(tab, fields)
  {
    assert (fields + [f])[..|fields|] == fields;
  }

  /** The entry is a text sibling of `parent` with this key, and no bundle by itself. */
  ghost predicate SiblingOf(tab: Table, e: Entry, parent: string, k: string) {
    tab.bundle(e).None? && tab.isText(e.value) && e.name == parent + "/" + k && '/' !in k
  }

  /** The keys are those of the entries at these places, in order, and every text sibling is among them. */
  ghost predicate KeysFrom(idx: seq<nat>, tab: Table, rows: seq<Entry>, parent: string, keys: seq<string>) {
    && |idx| == |keys|
    && (forall k :: 0 <= k < |idx| ==> idx[k] < |rows| && SiblingOf(tab, rows[idx[k]], parent, keys[k]))
    && (forall j, k :: 0 <= j < k < |idx| ==> idx[j] < idx[k])
    && (forall i: nat, k :: i < |rows| && SiblingOf(tab, rows[i], parent, k) ==> i in idx)
  }

  lemma SiblingIff(tab: Table, e: Entry, parent: string, k: string)
    ensures SiblingOf(tab, e, parent, k) <==> Child(tab, e, parent) && tab.isText(e.value) && FieldOf(e).key == k
  {
    if e.name == parent + "/" + k && '/' !in k {
      CutUnique(parent, k);
    }
  }

  /** The keys a parent is judged by are those of all its text siblings, in the order of the entries. */
  lemma {:induction false} KeysAreSiblings(tab: Table, rows: seq<Entry>, parent: string)
    ensures exists idx :: KeysFrom(idx, tab, rows, parent, KeysOf(tab, FieldsUnder(tab, rows, parent)))
  {
    if rows == [] {
      assert KeysFrom([], tab, rows, parent, KeysOf(tab, FieldsUnder(tab, rows, parent)));
    } else {
      var rest, e := rows[..|rows| - 1], rows[|rows| - 1];
      assert rows == rest + [e];
      KeysAreSiblings(tab, rest, parent);
      var keys := KeysOf(tab, FieldsUnder(tab, rest, parent));
      var idx: seq<nat> :| KeysFrom(idx, tab, rest, parent, keys);
      FieldsSnoc(tab, rest, e, parent);
      if Child(tab, e, parent) {
        KeysSnoc(tab, FieldsUnder(tab, rest, parent), FieldOf(e));
      }
      OneSibling(idx, tab, rest, parent, keys, e);
      if Child(tab, e, parent) && tab.isText(e.value) {
        assert KeysFrom(idx + [|rest|], tab, rows, parent, KeysOf(tab, FieldsUnder(tab, rows, parent)));
      } else {
        assert KeysFrom(idx, tab, rows, parent, KeysOf(tab, FieldsUnder(tab, rows, parent)));
      }
    }
  }

  lemma OneSibling(idx: seq<nat>, tab: Table, rest: seq<Entry>, parent: string, keys: seq<string>, e: Entry)
    requires KeysFrom(idx, tab, rest, parent, keys)
    ensures if Child(tab, e, parent) && tab.isText(e.value)
            then KeysFrom(idx + [|rest|], tab, rest + [e], parent, keys + [FieldOf(e).key])
            else KeysFrom(idx, tab, rest + [e], parent, keys)
  {
    var rows, more := rest + [e], idx + [|rest|];
    forall k
      ensures SiblingOf(tab, e, parent, k) <==> Child(tab, e, parent) && tab.isText(e.value) && FieldOf(e).key == k
    {
      SiblingIff(tab, e, parent, k);
    }
    assert forall i :: 0 <= i < |rest| ==> rows[i] == rest[i];
    assert more[|idx|] == |rest| && forall i :: i in idx ==> i in more;
  }

  /** Each key comes with the text its entry holds. */
  lemma {:induction false} ValuesAreTexts(tab: Table, rows: seq<Entry>, parent: string, k: string, v: string)
    requires DistinctNames(rows)
    ensures var values := ValuesOf(tab, FieldsUnder(tab, rows, parent));
            k in values && values[k] == v <==> exists i :: 0 <= i < |rows| && SiblingOf(tab, rows[i], parent, k) && rows[i].value == v
  {
    if rows != [] {
      var n := |rows| - 1;
      var rest, e := rows[..n], rows[n];
      assert rows == rest + [e] && forall i :: 0 <= i < n ==> rows[i] == rest[i];
      ValuesAreTexts(tab, rest, parent, k, v);
      FieldsSnoc(tab, rest, e, parent);
      SiblingIff(tab, e, parent, k);
      if Child(tab, e, parent) {
        ValuesSnoc(tab, FieldsUnder(tab, rest, parent), FieldOf(e));
      }
    }
  }

  lemma ValuesSnoc(tab: Table, fields: seq<Field>, f: Field)
    ensures ValuesOf(tab, fields + [f]) == if tab.isText(f.value) then ValuesOf(tab, fields)[f.key := f.value] else ValuesOf(tab, fields)
  {
    assert (fields + [f])[..|fields|] == fields;
  }

  ghost predicate StandsAlone(tab: Table, e: Entry, s: Shape) {
    tab.bundle(e).Some? && s == Shape(e.name, tab.bundle(e), [e.name])
  }

  /** The shapes are the bundles at these places, in order, and every bundle is among them. */
  ghost predicate BundlesFrom(idx: seq<nat>, tab: Table, rows: seq<Entry>, shapes: seq<Shape>) {
    && |idx| == |shapes|
    && (forall k :: 0 <= k < |idx| ==> idx[k] < |rows| && StandsAlone(tab, rows[idx[k]], shapes[k]))
    && (forall j, k :: 0 <= j < k < |idx| ==> idx[j] < idx[k])
    && (forall i: nat :: i < |rows| && tab.bundle(rows[i]).Some? ==> i in idx)
  }

  /** Every bundle is a shape by itself, in the order of the entries. */
  lemma {:induction false} BundlesAreAll(tab: Table, rows: seq<Entry>)
    ensures exists idx :: BundlesFrom(idx, tab, rows, Bundles(tab, rows))
  {
    if rows == [] {
      assert BundlesFrom([], tab, rows, Bundles(tab, rows));
    } else {
      var rest, e := rows[..|rows| - 1], rows[|rows| - 1];
      assert rows == rest + [e];
      BundlesAreAll(tab, rest);
      var idx: seq<nat> :| BundlesFrom(idx, tab, rest, Bundles(tab, rest));
      BundlesSnoc(tab, rest, e);
      OneBundle(idx, tab, rest, e, Bundles(tab, rest));
      if tab.bundle(e).Some? {
        assert BundlesFrom(idx + [|rest|], tab, rows, Bundles(tab, rows));
      } else {
        assert BundlesFrom(idx, tab, rows, Bundles(tab, rows));
      }
    }
  }

  lemma OneBundle(idx: seq<nat>, tab: Table, rest: seq<Entry>, e: Entry, shapes: seq<Shape>)
    requires BundlesFrom(idx, tab, rest, shapes)
    ensures if tab.bundle(e).Some? then BundlesFrom(idx + [|rest|], tab, rest + [e], shapes + [Alone(tab, e)])
            else BundlesFrom(idx, tab, rest + [e], shapes)
  {
    var rows, more := rest + [e], idx + [|rest|];
    assert forall i :: 0 <= i < |rest| ==> rows[i] == rest[i];
    assert more[|idx|] == |rest| && forall i :: i in idx ==> i in more;
  }

  // -------------------------------------------------- what the shapes are made of

  /** `k` is a text sibling of `parent` among the rows. */
  ghost predicate TextChild(tab: Table, rows: seq<Entry>, parent: string, k: string) {
    exists i :: 0 <= i < |rows| && Child(tab, rows[i], parent) && tab.isText(rows[i].value) && rows[i].name == parent + "/" + k
  }

  /** The keys of a group are its text siblings, each once. */
  lemma {:induction false} GroupKeys(tab: Table, rows: seq<Entry>, parent: string)
    requires DistinctNames(rows)
    ensures var keys := KeysOf(tab, FieldsUnder(tab, rows, parent));
            && (forall k :: k in keys ==> TextChild(tab, rows, parent, k) && '/' !in k)
            && (forall i, j :: 0 <= i < j < |keys| ==> keys[i] != keys[j])
  {
    if rows != [] {
      var n := |rows| - 1;
      var rest, e := rows[..n], rows[n];
      GroupKeys(tab, rest, parent);
      var before := KeysOf(tab, FieldsUnder(tab, rest, parent));
      forall k | k in before
        ensures TextChild(tab, rows, parent, k) && '/' !in k && (Child(tab, e, parent) ==> FieldOf(e).key != k)
      {
        assert TextChild(tab, rest, parent, k);
        var i :| 0 <= i < |rest| && Child(tab, rest[i], parent) && tab.isText(rest[i].value) && rest[i].name == parent + "/" + k;
        assert rows[i] == rest[i];
      }
      if Child(tab, e, parent) {
        var fields := FieldsUnder(tab, rows, parent);
        assert fields[..|fields| - 1] == FieldsUnder(tab, rest, parent);
        assert TextChild(tab, rows, parent, FieldOf(e).key) || !tab.isText(e.value);
      }
    }
  }

  function NamesIn(rows: seq<Entry>): set<string> {
    set i | 0 <= i < |rows| :: rows[i].name
  }

  /** A bundle stands for itself. */
  ghost predicate Single(names: set<string>, s: Shape) {
    s.members == [s.name] && s.name in names
  }

  /** A group stands for two or more stored names, each one segment below the group's own. */
  ghost predicate Group(names: set<string>, s: Shape) {
    && |s.members| >= 2
    && (forall m :: m in s.members ==> m in names && Cut(m).Some? && Cut(m).value.0 == s.name)
    && (forall i, j :: 0 <= i < j < |s.members| ==> s.members[i] != s.members[j])
  }

  /** `alone` bundles by themselves, then groups; nothing is claimed twice. */
  ghost predicate WellShaped(names: set<string>, shapes: seq<Shape>, alone: nat) {
    && alone <= |shapes|
    && (forall i :: 0 <= i < alone ==> Single(names, shapes[i]))
    && (forall i :: alone <= i < |shapes| ==> Group(names, shapes[i]))
    && (forall i, j :: 0 <= i < j < alone ==> shapes[i].name != shapes[j].name)
    && (forall i, j :: alone <= i < j < |shapes| ==> shapes[i].name != shapes[j].name)
    && (forall i, j :: 0 <= i < alone <= j < |shapes| ==> shapes[i].name !in shapes[j].members)
  }

  /** Whatever the provider table says, no stored name is a member of two shapes. */
  lemma MembersDisjoint(names: set<string>, shapes: seq<Shape>, alone: nat, i: nat, j: nat, m: string)
    requires WellShaped(names, shapes, alone) && i < |shapes| && j < |shapes|
    requires m in shapes[i].members && m in shapes[j].members
    ensures i == j
  {
    if i < alone {
      assert m == shapes[i].name;
    }
    if j < alone {
      assert m == shapes[j].name;
    }
  }

  ghost predicate OwnBundle(tab: Table, rows: seq<Entry>, s: Shape) {
    exists j :: 0 <= j < |rows| && tab.bundle(rows[j]).Some? && s == Alone(tab, rows[j])
  }

  ghost predicate OwnBundles(tab: Table, rows: seq<Entry>, shapes: seq<Shape>) {
    forall i :: 0 <= i < |shapes| ==> OwnBundle(tab, rows, shapes[i])
  }

  ghost predicate NamesDiffer(shapes: seq<Shape>) {
    forall i, j :: 0 <= i < j < |shapes| ==> shapes[i].name != shapes[j].name
  }

  lemma OwnBundleLater(tab: Table, rows: seq<Entry>, e: Entry, s: Shape)
    requires OwnBundle(tab, rows, s) && DistinctNames(rows + [e])
    ensures OwnBundle(tab, rows + [e], s) && s.name != e.name
  {
    var j :| 0 <= j < |rows| && tab.bundle(rows[j]).Some? && s == Alone(tab, rows[j]);
    assert (rows + [e])[j] == rows[j] && (rows + [e])[|rows|] == e;
  }

  lemma {:induction false} BundlesAre(tab: Table, rows: seq<Entry>)
    requires DistinctNames(rows)
    ensures OwnBundles(tab, rows, Bundles(tab, rows))
    ensures NamesDiffer(Bundles(tab, rows))
  {
    if rows != [] {
      var n := |rows| - 1;
      var rest, e := rows[..n], rows[n];
      assert rows == rest + [e];
      BundlesAre(tab, rest);
      var before := Bundles(tab, rest);
      forall i | 0 <= i < |before|
        ensures OwnBundle(tab, rows, before[i]) && before[i].name != e.name
      {
        OwnBundleLater(tab, rest, e, before[i]);
      }
      if tab.bundle(e).Some? {
        assert OwnBundle(tab, rows, Alone(tab, e)) by {
          assert rows[n] == e;
        }
        assert Bundles(tab, rows) == before + [Alone(tab, e)];
      } else {
        assert Bundles(tab, rows) == before;
      }
    }
  }

  /** The list `shapes_of` makes is well shaped over the names it was given. */
  lemma ShapesWellShaped(tab: Table, rows: seq<Entry>, shapes: seq<Shape>, alone: nat)
    requires DistinctNames(rows)
    requires alone <= |shapes| && shapes[..alone] == Bundles(tab, rows) && FusedExactly(tab, rows, shapes[alone..])
    ensures WellShaped(NamesIn(rows), shapes, alone)
  {
    var left, right := shapes[..alone], shapes[alone..];
    BundlesAre(tab, rows);
    forall i | 0 <= i < |left|
      ensures Single(NamesIn(rows), left[i])
    {
      assert OwnBundle(tab, rows, left[i]);
    }
    forall i | 0 <= i < |right|
      ensures Group(NamesIn(rows), right[i])
      ensures forall j :: 0 <= j < |left| ==> left[j].name !in right[i].members
    {
      GroupFromRows(tab, rows, right[i]);
      assert forall j :: 0 <= j < |left| ==> OwnBundle(tab, rows, left[j]);
    }
    Assemble(NamesIn(rows), left, right);
    assert shapes == left + right;
  }

  lemma Assemble(names: set<string>, left: seq<Shape>, right: seq<Shape>)
    requires NamesDiffer(left) && NamesDiffer(right)
    requires forall i :: 0 <= i < |left| ==> Single(names, left[i])
    requires forall i :: 0 <= i < |right| ==> Group(names, right[i])
    requires forall i, j :: 0 <= i < |right| && 0 <= j < |left| ==> left[j].name !in right[i].members
    ensures WellShaped(names, left + right, |left|)
  {
    var all := left + right;
    assert forall i :: |left| <= i < |all| ==> all[i] == right[i - |left|];
  }

  lemma GroupFromRows(tab: Table, rows: seq<Entry>, s: Shape)
    requires DistinctNames(rows) && Fused(tab, rows, s.name) == Some(s)
    ensures Group(NamesIn(rows), s)
    ensures forall j :: 0 <= j < |rows| && tab.bundle(rows[j]).Some? ==> rows[j].name !in s.members
  {
    var keys := KeysOf(tab, FieldsUnder(tab, rows, s.name));
    GroupKeys(tab, rows, s.name);
    forall m | m in s.members
      ensures m in NamesIn(rows) && Cut(m).Some? && Cut(m).value.0 == s.name
      ensures forall j :: 0 <= j < |rows| && tab.bundle(rows[j]).Some? ==> rows[j].name != m
    {
      var i :| 0 <= i < |keys| && m == s.name + "/" + keys[i];
      CutUnique(s.name, keys[i]);
      assert TextChild(tab, rows, s.name, keys[i]);
      var r :| 0 <= r < |rows| && Child(tab, rows[r], s.name) && tab.isText(rows[r].value) && rows[r].name == s.name + "/" + keys[i];
    }
    forall i, j | 0 <= i < j < |s.members|
      ensures s.members[i] != s.members[j]
    {
      CutUnique(s.name, keys[i]);
      CutUnique(s.name, keys[j]);
    }
  }
}
