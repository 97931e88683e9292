/**
 The terminal register: the vault as one client holds it, and the saves it sends. Its
 maps must stay in step, because a save replaces the whole vault: a name missing from one
 of them would be a name deleted. What the register asks for is an `Edit` of the save
 protocol; here it is shown that each PUT it sends is that edit of what it holds.
 */
module Register {
  import opened Wrappers
  import opened Shapes
  import opened Index
  import P = SaveProtocol
  import PayloadJson

  const EMPTY_META := "{}"

  /** One element of the server's `entries` array, before anything is known of it. */
  datatype Raw = Raw(name: Option<string>, ct: Option<string>, meta: string)

  datatype VaultLoad = VaultLoad(entries: seq<Entry>, raw: nat, before: map<string, string>) {
    function Dropped(): nat {
      if raw > |entries| then raw - |entries| else 0
    }
  }

  /** What the next round trip to the server will do. */
  datatype Net = Net(reached: bool, saved: bool, seal: string -> string, reload: Option<seq<Raw>>)

  datatype Result = Saved | BadForm | Refused | SaveFailed | NothingToSave | SignedOut

  /** A save that ended before any round trip. */
  predicate Stopped(r: Result) {
    r.BadForm? || r.Refused? || r.NothingToSave? || r.SignedOut?
  }

  /** A server answer names no entry twice: `entries.name` is a primary key. */
  ghost predicate OneEach(arr: seq<Raw>) {
    forall i, j :: 0 <= i < j < |arr| && arr[i].name.Some? ==> arr[i].name != arr[j].name
  }

  predicate Usable(r: Raw, open: (string, string) -> Option<string>) {
    r.name.Some? && r.ct.Some? && open(r.name.value, r.ct.value).Some?
  }

  /** Every loaded entry is in the pre-image; when nothing was dropped they are the same names. */
  ghost predicate LoadOk(load: VaultLoad) {
    && DistinctNames(load.entries)
    && NamesIn(load.entries) <= load.before.Keys
    && (load.Dropped() == 0 ==> load.before.Keys == NamesIn(load.entries))
  }

  /** name -> ciphertext for every element that has both. */
  function BeforeOf(arr: seq<Raw>): map<string, string> {
    if arr == [] then map[]
    else
      var e := arr[|arr| - 1];
      var rest := BeforeOf(arr[..|arr| - 1]);
      if e.name.Some? && e.ct.Some? then rest[e.name.value := e.ct.value] else rest
  }

  /** The elements this key opens, opened, in order. */
  function EntriesOf(arr: seq<Raw>, open: (string, string) -> Option<string>): seq<Entry> {
    if arr == [] then []
    else
      var e := arr[|arr| - 1];
      var rest := EntriesOf(arr[..|arr| - 1], open);
      if Usable(e, open) then rest + [Opened(e, open)] else rest
  }

  /** The element opens, under the name it bears, to the entry, whose meta is the element's own. */
  ghost predicate OpensTo(r: Raw, e: Entry, open: (string, string) -> Option<string>) {
    r.name == Some(e.name) && r.ct.Some? && open(e.name, r.ct.value) == Some(e.value) && e.meta == r.meta
  }

  ghost predicate CanOpen(r: Raw, open: (string, string) -> Option<string>) {
    exists e :: OpensTo(r, e, open)
  }

  /** The entries are the elements at these places, opened, in order; and no other element can be opened. */
  ghost predicate LoadedFrom(idx: seq<nat>, arr: seq<Raw>, entries: seq<Entry>, open: (string, string) -> Option<string>) {
    && |idx| == |entries|
    && (forall k :: 0 <= k < |idx| ==> idx[k] < |arr| && OpensTo(arr[idx[k]], entries[k], open))
    && (forall j, k :: 0 <= j < k < |idx| ==> idx[j] < idx[k])
    && (forall i: nat :: i < |arr| && CanOpen(arr[i], open) ==> i in idx)
  }

  /** What a load puts in the register: each element that can be opened gives one entry, its own plaintext and meta, in the order sent. */
  lemma {:induction false} LoadOpens(arr: seq<Raw>, open: (string, string) -> Option<string>)
    ensures exists idx :: LoadedFrom(idx, arr, EntriesOf(arr, open), open)
  {
    if arr == [] {
      assert LoadedFrom([], arr, EntriesOf(arr, open), open);
    } else {
      var rest, e := arr[..|arr| - 1], arr[|arr| - 1];
      LoadOpens(rest, open);
      var idx: seq<nat> :| LoadedFrom(idx, rest, EntriesOf(rest, open), open);
      assert arr == rest + [e];
      if Usable(e, open) {
        OneTaken(idx, rest, EntriesOf(rest, open), open, e, Opened(e, open));
        assert LoadedFrom(idx + [|rest|], arr, EntriesOf(arr, open), open);
      } else {
        OneSkipped(idx, rest, EntriesOf(rest, open), open, e);
        assert LoadedFrom(idx, arr, EntriesOf(arr, open), open);
      }
    }
  }

  lemma OneTaken(idx: seq<nat>, rest: seq<Raw>, entries: seq<Entry>, open: (string, string) -> Option<string>, r: Raw, e: Entry)
    requires LoadedFrom(idx, rest, entries, open) && OpensTo(r, e, open)
    ensures LoadedFrom(idx + [|rest|], rest + [r], entries + [e], open)
  {
    var more := idx + [|rest|];
    assert more[|idx|] == |rest| && forall i :: i in idx ==> i in more;
    forall i: nat | i < |rest| + 1 && CanOpen((rest + [r])[i], open)
      ensures i in more
    {
      assert i < |rest| ==> CanOpen(rest[i], open);
    }
  }

  lemma OneSkipped(idx: seq<nat>, rest: seq<Raw>, entries: seq<Entry>, open: (string, string) -> Option<string>, r: Raw)
    requires LoadedFrom(idx, rest, entries, open) && !CanOpen(r, open)
    ensures LoadedFrom(idx, rest + [r], entries, open)
  {
    forall i: nat | i < |rest| + 1 && CanOpen((rest + [r])[i], open)
      ensures i in idx
    {
      assert i < |rest| && CanOpen(rest[i], open);
    }
  }

  /** The pre-image: each name with the ciphertext some element gives it, opened or not. */
  lemma {:induction false} BeforeIs(arr: seq<Raw>, n: string, ct: string)
    requires OneEach(arr)
    ensures n in BeforeOf(arr) && BeforeOf(arr)[n] == ct <==> exists i :: 0 <= i < |arr| && arr[i].name == Some(n) && arr[i].ct == Some(ct)
  {
    if arr != [] {
      var k := |arr| - 1;
      assert forall i :: 0 <= i < k ==> arr[i] == arr[..k][i];
      if arr[k].name.Some? {
        LastNotBefore(arr);
      }
      assert OneEach(arr[..k]);
      BeforeIs(arr[..k], n, ct);
    }
  }

  /** What the register then holds: a text and a meta under a name exactly when some element of that name opens to them. */
  lemma LoadHolds(arr: seq<Raw>, open: (string, string) -> Option<string>, e: Entry)
    requires OneEach(arr)
    ensures e.name in ViewOf(EntriesOf(arr, open)) && ViewOf(EntriesOf(arr, open))[e.name] == P.Plain(e.value, e.meta)
            <==> exists i :: 0 <= i < |arr| && OpensTo(arr[i], e, open)
  {
    var entries := EntriesOf(arr, open);
    LoadFacts(arr, open);
    LoadOpens(arr, open);
    var idx: seq<nat> :| LoadedFrom(idx, arr, entries, open);
    ViewHas(entries, e);
    if e in entries {
      var k :| 0 <= k < |entries| && entries[k] == e;
      assert OpensTo(arr[idx[k]], e, open);
    }
    if i: nat :| i < |arr| && OpensTo(arr[i], e, open) {
      assert CanOpen(arr[i], open);
      var k :| 0 <= k < |idx| && idx[k] == i;
      assert entries[k] == e;
    }
  }

  /** Of entries with distinct names the view shows each, and nothing else. */
  lemma ViewHas(entries: seq<Entry>, e: Entry)
    requires DistinctNames(entries)
    ensures e.name in ViewOf(entries) && ViewOf(entries)[e.name] == P.Plain(e.value, e.meta) <==> e in entries
  {
    if e in entries {
      var k :| 0 <= k < |entries| && entries[k] == e;
      FirstAt(entries, k);
    }
  }

  lemma {:induction false} BeforeNames(arr: seq<Raw>, n: string)
    requires n in BeforeOf(arr)
    ensures exists i :: 0 <= i < |arr| && arr[i].name == Some(n)
  {
    var k := |arr| - 1;
    if arr[k].name != Some(n) {
      BeforeNames(arr[..k], n);
      var i :| 0 <= i < k && arr[..k][i].name == Some(n);
      assert arr[i].name == Some(n);
    }
  }

  lemma LastNotBefore(arr: seq<Raw>)
    requires arr != [] && OneEach(arr) && arr[|arr| - 1].name.Some?
    ensures OneEach(arr[..|arr| - 1]) && arr[|arr| - 1].name.value !in BeforeOf(arr[..|arr| - 1])
  {
    var k := |arr| - 1;
    forall i | 0 <= i < k
      ensures arr[..k][i].name != arr[k].name
    {
      assert arr[..k][i] == arr[i];
    }
    if arr[k].name.value in BeforeOf(arr[..k]) {
      BeforeNames(arr[..k], arr[k].name.value);
    }
  }

  /** What a load can promise: the names are told apart, and a full count means nothing is missing. */
  lemma {:induction false} LoadFacts(arr: seq<Raw>, open: (string, string) -> Option<string>)
    requires OneEach(arr)
    ensures DistinctNames(EntriesOf(arr, open)) && |EntriesOf(arr, open)| <= |arr|
    ensures NamesIn(EntriesOf(arr, open)) <= BeforeOf(arr).Keys
    ensures |EntriesOf(arr, open)| == |arr| <==> forall i :: 0 <= i < |arr| ==> Usable(arr[i], open)
    ensures |EntriesOf(arr, open)| == |arr| ==> BeforeOf(arr).Keys == NamesIn(EntriesOf(arr, open))
  {
    if arr != [] {
      var k := |arr| - 1;
      var rest, e := arr[..k], arr[k];
      LoadFacts(rest, open);
      assert forall i :: 0 <= i < k ==> arr[i] == rest[i];
      if Usable(e, open) {
        LastNotBefore(arr);
        NamesInSnoc(EntriesOf(rest, open), Opened(e, open));
      }
    }
  }

  /** `load_vault`. */
  method LoadVault(arr: seq<Raw>, open: (string, string) -> Option<string>) returns (load: VaultLoad)
    requires OneEach(arr)
    ensures load == VaultLoad(EntriesOf(arr, open), |arr|, BeforeOf(arr))
    ensures (exists idx :: LoadedFrom(idx, arr, load.entries, open)) && LoadOk(load)
    ensures load.Dropped() == 0 <==> forall i :: 0 <= i < |arr| ==> Usable(arr[i], open)
  {
    var before: map<string, string> := map[];
    var out: seq<Entry> := [];
    for i := 0 to |arr|
      invariant before == BeforeOf(arr[..i]) && out == EntriesOf(arr[..i], open)
    {
      assert arr[..i + 1][..i] == arr[..i];
      var e := arr[i];
      if e.name.None? {
        continue;
      }
      if e.ct.None? {
        continue;
      }
      before := before[e.name.value := e.ct.value];
      var plain := open(e.name.value, e.ct.value);
      if plain.None? {
        continue;
      }
      out := out + [Entry(e.name.value, plain.value, e.meta)];
    }
    assert arr[..|arr|] == arr;
    LoadFacts(arr, open);
    LoadOpens(arr, open);
    load := VaultLoad(out, |arr|, before);
  }

  function Opened(r: Raw, open: (string, string) -> Option<string>): Entry
    requires Usable(r, open)
  {
    Entry(r.name.value, open(r.name.value, r.ct.value).value, r.meta)
  }

  lemma NamesInSnoc(rows: seq<Entry>, e: Entry)
    ensures NamesIn(rows + [e]) == NamesIn(rows) + {e.name}
    ensures DistinctNames(rows) && e.name !in NamesIn(rows) ==> DistinctNames(rows + [e])
  {
    var all := rows + [e];
    assert all[|rows|] == e;
    forall n
      ensures n in NamesIn(all) <==> n in NamesIn(rows) + {e.name}
    {
      if n in NamesIn(rows) {
        var i :| 0 <= i < |rows| && rows[i].name == n;
        assert all[i].name == n;
      }
    }
    assert forall i :: 0 <= i < |rows| ==> rows[i].name in NamesIn(rows);
  }

  // -------------------------------------------------------------- rows and views

  /** Two maps of the same names, as one view. */
  function Zip(values: map<string, string>, meta: map<string, string>): P.View
    requires values.Keys == meta.Keys
  {
    map n | n in values :: P.Plain(values[n], meta[n])
  }

  lemma ZipInsert(values: map<string, string>, meta: map<string, string>, e: Entry, base: P.View, over: P.View)
    requires values.Keys == meta.Keys && Zip(values, meta) == base + over
    ensures Zip(values[e.name := e.value], meta[e.name := e.meta]) == base + over[e.name := P.Plain(e.value, e.meta)]
  {
    assert base + over[e.name := P.Plain(e.value, e.meta)] == (base + over)[e.name := P.Plain(e.value, e.meta)];
  }

  predicate NoRepeats(names: seq<string>) {
    forall i, j :: 0 <= i < j < |names| ==> names[i] != names[j]
  }

  /** `writes.iter().find(..)`: the first write of a name. */
  function FirstOf(writes: seq<Entry>, name: string): (r: Option<Entry>)
    ensures r.Some? <==> name in NamesIn(writes)
    ensures r.Some? ==> r.value in writes && r.value.name == name
  {
    if writes == [] then None
    else
      NamesInSnoc(writes[..|writes| - 1], writes[|writes| - 1]);
      assert writes == writes[..|writes| - 1] + [writes[|writes| - 1]];
      var rest := FirstOf(writes[..|writes| - 1], name);
      if rest.Some? then rest
      else if writes[|writes| - 1].name == name then Some(writes[|writes| - 1])
      else None
  }

  function FirstWins(writes: seq<Entry>): P.View {
    map n | n in NamesIn(writes) :: P.Plain(FirstOf(writes, n).value.value, FirstOf(writes, n).value.meta)
  }

  function LastWins(writes: seq<Entry>): (v: P.View)
    ensures v.Keys == NamesIn(writes)
  {
    if writes == [] then map[]
    else
      var e := writes[|writes| - 1];
      NamesInSnoc(writes[..|writes| - 1], e);
      assert writes == writes[..|writes| - 1] + [e];
      LastWins(writes[..|writes| - 1])[e.name := P.Plain(e.value, e.meta)]
  }

  lemma OneMoreWrite(writes: seq<Entry>, i: nat)
    requires i < |writes|
    ensures NamesIn(writes[..i + 1]) == NamesIn(writes[..i]) + {writes[i].name}
    ensures LastWins(writes[..i + 1]) == LastWins(writes[..i])[writes[i].name := P.Plain(writes[i].value, writes[i].meta)]
  {
    assert writes[..i + 1] == writes[..i] + [writes[i]];
    assert writes[..i + 1][..i] == writes[..i];
    NamesInSnoc(writes[..i], writes[i]);
  }

  predicate IsFirst(writes: seq<Entry>, i: int) {
    0 <= i < |writes| && forall k :: 0 <= k < i ==> writes[k].name != writes[i].name
  }

  predicate IsLast(writes: seq<Entry>, j: int) {
    0 <= j < |writes| && forall k :: j < k < |writes| ==> writes[k].name != writes[j].name
  }

  /** The first and the last write of each name say the same. */
  ghost predicate EndsAgree(writes: seq<Entry>) {
    forall i, j :: IsFirst(writes, i) && IsLast(writes, j) && writes[i].name == writes[j].name
      ==> writes[i].value == writes[j].value && writes[i].meta == writes[j].meta
  }

  lemma {:induction false} FirstAt(writes: seq<Entry>, i: nat)
    requires IsFirst(writes, i)
    ensures FirstOf(writes, writes[i].name) == Some(writes[i])
  {
    var n := |writes| - 1;
    if i < n {
      FirstAt(writes[..n], i);
    } else {
      NotNamed(writes[..n], writes[i].name);
    }
  }

  lemma NotNamed(writes: seq<Entry>, name: string)
    requires forall k :: 0 <= k < |writes| ==> writes[k].name != name
    ensures name !in NamesIn(writes)
  {
  }

  lemma {:induction false} LastAt(writes: seq<Entry>, j: nat)
    requires IsLast(writes, j)
    ensures writes[j].name in LastWins(writes)
    ensures LastWins(writes)[writes[j].name] == P.Plain(writes[j].value, writes[j].meta)
  {
    var n := |writes| - 1;
    if j < n {
      LastAt(writes[..n], j);
      assert writes[n].name != writes[j].name;
    }
  }

  lemma {:induction false} HasEnds(writes: seq<Entry>, name: string) returns (i: nat, j: nat)
    requires name in NamesIn(writes)
    ensures IsFirst(writes, i) && IsLast(writes, j) && writes[i].name == writes[j].name == name
  {
    var n := |writes| - 1;
    NamesInSnoc(writes[..n], writes[n]);
    assert writes == writes[..n] + [writes[n]];
    if name in NamesIn(writes[..n]) {
      i, j := HasEnds(writes[..n], name);
      if writes[n].name == name {
        j := n;
      }
    } else {
      i, j := n, n;
      assert forall k :: 0 <= k < n ==> writes[k].name == writes[..n][k].name && writes[k].name in NamesIn(writes[..n]);
    }
  }

  /** Taking the first write of a name or the last is the same exactly when each name's first and last write say the same. */
  lemma WritesAgreeIff(writes: seq<Entry>)
    ensures FirstWins(writes) == LastWins(writes) <==> EndsAgree(writes)
  {
    forall i, j | IsFirst(writes, i) && IsLast(writes, j) && writes[i].name == writes[j].name
      ensures FirstWins(writes)[writes[i].name] == P.Plain(writes[i].value, writes[i].meta)
      ensures LastWins(writes)[writes[i].name] == P.Plain(writes[j].value, writes[j].meta)
    {
      FirstAt(writes, i);
      LastAt(writes, j);
    }
    if EndsAgree(writes) {
      forall n | n in NamesIn(writes)
        ensures FirstWins(writes)[n] == LastWins(writes)[n]
      {
        var i, j := HasEnds(writes, n);
      }
    }
  }

  /** Two writes of one name that differ are sent as the first and held as the last. */
  lemma DuplicateDisagrees(e: Entry, f: Entry)
    requires e.name == f.name && (e.value != f.value || e.meta != f.meta)
    ensures e.name in FirstWins([e, f]) && FirstWins([e, f])[e.name] == P.Plain(e.value, e.meta)
    ensures e.name in LastWins([e, f]) && LastWins([e, f])[e.name] == P.Plain(f.value, f.meta)
    ensures FirstWins([e, f]) != LastWins([e, f])
  {
    var writes := [e, f];
    assert IsFirst(writes, 0) && IsLast(writes, 1);
    FirstAt(writes, 0);
    LastAt(writes, 1);
  }

  function ViewOf(rows: seq<Entry>): P.View {
    map n | n in NamesIn(rows) :: P.Plain(FirstOf(rows, n).value.value, FirstOf(rows, n).value.meta)
  }

  /** The prospective rows of a save: a write where there is one, else what the register holds; a name with neither is left out. */
  function Body(names: seq<string>, writes: seq<Entry>, values: map<string, string>, meta: map<string, string>): seq<Entry> {
    if names == [] then []
    else
      var n := names[|names| - 1];
      var rest := Body(names[..|names| - 1], writes, values, meta);
      var w := FirstOf(writes, n);
      if w.Some? then rest + [w.value]
      else if n in values then rest + [Entry(n, values[n], if n in meta then meta[n] else EMPTY_META)]
      else rest
  }

  /** What a save says of a name: what is first written of it, else what is held. */
  ghost function SaysOf(n: string, writes: seq<Entry>, values: map<string, string>, meta: map<string, string>): P.Plain
    requires n in NamesIn(writes) || (n in values && n in meta)
  {
    if n in NamesIn(writes) then FirstWins(writes)[n] else P.Plain(values[n], meta[n])
  }

  /** When every name is written or held, the body is the whole of `names`, each once. */
  lemma {:induction false} BodyIsWhole(names: seq<string>, writes: seq<Entry>, values: map<string, string>, meta: map<string, string>)
    requires NoRepeats(names) && values.Keys == meta.Keys
    requires forall n :: n in names ==> n in NamesIn(writes) || n in values
    ensures var body := Body(names, writes, values, meta);
            && DistinctNames(body) && NamesIn(body) == SetOf(names)
            && forall e :: e in body ==> e.name in names && P.Plain(e.value, e.meta) == SaysOf(e.name, writes, values, meta)
  {
    if names != [] {
      var k := |names| - 1;
      var n := names[k];
      BodyIsWhole(names[..k], writes, values, meta);
      var rest := Body(names[..k], writes, values, meta);
      var e := Body(names, writes, values, meta)[|rest|];
      assert Body(names, writes, values, meta) == rest + [e] && e.name == n;
      assert names == names[..k] + [n];
      assert n !in SetOf(names[..k]);
      NamesInSnoc(rest, e);
      assert SetOf(names) == SetOf(names[..k]) + {n};
    }
  }

  /** Rows that say of each name what `view` says are `view`. */
  lemma RowsAreView(rows: seq<Entry>, view: P.View)
    requires NamesIn(rows) == view.Keys
    requires forall e :: e in rows ==> e.name in view && view[e.name] == P.Plain(e.value, e.meta)
    ensures ViewOf(rows) == view
  {
  }

  /** The body of a save is the edit of what is held. */
  lemma BodyIsEdit(names: seq<string>, writes: seq<Entry>, gone: seq<string>, values: map<string, string>, meta: map<string, string>)
    requires NoRepeats(names) && values.Keys == meta.Keys && SetOf(names) == values.Keys - SetOf(gone) + NamesIn(writes)
    ensures var body := Body(names, writes, values, meta);
            && DistinctNames(body) && NamesIn(body) == SetOf(names)
            && ViewOf(body) == P.Edited(Zip(values, meta), P.Edit(FirstWins(writes), SetOf(gone)))
  {
    assert forall n :: n in names ==> n in SetOf(names);
    BodyIsWhole(names, writes, values, meta);
    RowsAreView(Body(names, writes, values, meta), P.Edited(Zip(values, meta), P.Edit(FirstWins(writes), SetOf(gone))));
  }

  function Without(names: seq<string>, gone: seq<string>): (out: seq<string>)
    ensures forall n :: n in out <==> n in names && n !in gone
  {
    if names == [] then []
    else
      var n := names[|names| - 1];
      assert names == names[..|names| - 1] + [n];
      if n in gone then Without(names[..|names| - 1], gone) else Without(names[..|names| - 1], gone) + [n]
  }

  lemma {:induction false} WithoutNoRepeats(names: seq<string>, gone: seq<string>)
    requires NoRepeats(names)
    ensures NoRepeats(Without(names, gone))
  {
    if names != [] {
      var k := |names| - 1;
      WithoutNoRepeats(names[..k], gone);
      assert names[k] !in names[..k];
    }
  }

  /** A delete sends what is held without what is asked. */
  lemma KeptIsEdit(names: seq<string>, gone: seq<string>, values: map<string, string>, meta: map<string, string>)
    requires NoRepeats(names) && SetOf(names) == values.Keys == meta.Keys
    ensures var kept := Without(names, gone);
            var body := Body(kept, [], values, meta);
            && NoRepeats(kept) && SetOf(kept) == SetOf(names) - SetOf(gone)
            && DistinctNames(body) && NamesIn(body) == SetOf(kept)
            && ViewOf(body) == P.Edited(Zip(values, meta), P.Edit(map[], SetOf(gone)))
  {
    var kept := Without(names, gone);
    WithoutNoRepeats(names, gone);
    assert SetOf(kept) == SetOf(names) - SetOf(gone);
    BodyIsEdit(kept, [], gone, values, meta);
  }

  /** One name, one value and one meta for each entry. */
  ghost predicate Filled(names: seq<string>, values: map<string, string>, meta: map<string, string>, entries: seq<Entry>) {
    && |names| == |entries| && (forall j :: 0 <= j < |names| ==> names[j] == entries[j].name)
    && values.Keys == SetOf(names) && meta.Keys == SetOf(names)
    && (forall j :: 0 <= j < |entries| ==>
          entries[j].name in values && entries[j].name in meta
          && values[entries[j].name] == entries[j].value && meta[entries[j].name] == entries[j].meta)
  }

  lemma FilledOneMore(names: seq<string>, values: map<string, string>, meta: map<string, string>, entries: seq<Entry>, i: nat)
    requires DistinctNames(entries) && i < |entries| && Filled(names, values, meta, entries[..i])
    ensures var e := entries[i];
            Filled(names + [e.name], values[e.name := e.value], meta[e.name := e.meta], entries[..i + 1])
  {
    var e, more := entries[i], entries[..i + 1];
    assert SetOf(names + [e.name]) == SetOf(names) + {e.name};
    assert more == entries[..i] + [e];
    forall j | 0 <= j < i
      ensures more[j] == entries[..i][j] && more[j].name != e.name
    {
    }
  }

  lemma FilledIsView(names: seq<string>, values: map<string, string>, meta: map<string, string>, entries: seq<Entry>)
    requires DistinctNames(entries) && Filled(names, values, meta, entries)
    ensures NoRepeats(names) && SetOf(names) == NamesIn(entries)
    ensures Zip(values, meta) == ViewOf(entries)
  {
    assert forall n :: n in SetOf(names) <==> n in NamesIn(entries);
    RowsAreView(entries, Zip(values, meta));
  }

  lemma SameKeys(load: VaultLoad, names: seq<string>, before: map<string, string>, blocked: Option<string>)
    requires LoadOk(load) && SetOf(names) == NamesIn(load.entries) && before == load.before
    requires blocked.None? ==> load.Dropped() == 0
    ensures blocked.None? ==> before.Keys == SetOf(names)
  {
  }

  // ---------------------------------------------------------------- what a form gives

  datatype FormField = FormField(key: string, optional: bool)

  /** The first text typed under the key, or nothing. */
  function TypedFor(typed: seq<(string, string)>, key: string): string {
    if typed == [] then "" else if typed[0].0 == key then typed[0].1 else TypedFor(typed[1..], key)
  }

  /** Schema-ordered pairs of trimmed values; none at all when a required one is empty. */
  function Payload(trim: string -> string, fields: seq<FormField>, typed: seq<(string, string)>): Option<seq<(string, string)>> {
    if fields == [] then Some([])
    else
      var f := fields[|fields| - 1];
      var v := trim(TypedFor(typed, f.key));
      match Payload(trim, fields[..|fields| - 1], typed)
      case None => None
      case Some(rest) => if v != "" then Some(rest + [(f.key, v)]) else if f.optional then Some(rest) else None
  }

  method BuildPayload(trim: string -> string, fields: seq<FormField>, typed: seq<(string, string)>) returns (out: Option<seq<(string, string)>>)
    ensures out == Payload(trim, fields, typed)
  {
    var pairs := [];
    for i := 0 to |fields|
      invariant Payload(trim, fields[..i], typed) == Some(pairs)
    {
      assert fields[..i + 1][..i] == fields[..i];
      var v := trim(TypedFor(typed, fields[i].key));
      if v == "" {
        if fields[i].optional {
          continue;
        }
        StaysNone(trim, fields, typed, i + 1);
        return None;
      }
      pairs := pairs + [(fields[i].key, v)];
    }
    assert fields[..|fields|] == fields;
    return Some(pairs);
  }

  lemma {:induction false} StaysNone(trim: string -> string, fields: seq<FormField>, typed: seq<(string, string)>, i: nat)
    requires i <= |fields| && Payload(trim, fields[..i], typed) == None
    ensures Payload(trim, fields, typed) == None
  {
    if i < |fields| {
      assert fields[..|fields| - 1][..i] == fields[..i];
      StaysNone(trim, fields[..|fields| - 1], typed, i);
    } else {
      assert fields[..i] == fields;
    }
  }

  /** Each key comes with what was typed for it, so a key that a schema repeats comes with one value. */
  lemma {:induction false} PayloadValues(trim: string -> string, fields: seq<FormField>, typed: seq<(string, string)>)
    ensures Payload(trim, fields, typed).None? <==> exists i :: 0 <= i < |fields| && !fields[i].optional && trim(TypedFor(typed, fields[i].key)) == ""
    ensures Payload(trim, fields, typed).Some? ==>
              forall p :: p in Payload(trim, fields, typed).value ==> p.1 == trim(TypedFor(typed, p.0)) && p.1 != ""
  {
    if fields != [] {
      PayloadValues(trim, fields[..|fields| - 1], typed);
      assert fields == fields[..|fields| - 1] + [fields[|fields| - 1]];
    }
  }

  /** What the form gives for a field. */
  ghost function TextOf(trim: string -> string, typed: seq<(string, string)>, f: FormField): string {
    trim(TypedFor(typed, f.key))
  }

  ghost predicate Gives(trim: string -> string, typed: seq<(string, string)>, f: FormField, pair: (string, string)) {
    pair == (f.key, TextOf(trim, typed, f))
  }

  /** The pairs are the fields at these places, in the order of the schema, each with its trimmed text; every field filled is among them. */
  ghost predicate FilledFrom(idx: seq<nat>, trim: string -> string, fields: seq<FormField>, typed: seq<(string, string)>, pairs: seq<(string, string)>) {
    && |idx| == |pairs|
    && (forall k :: 0 <= k < |idx| ==> idx[k] < |fields| && Gives(trim, typed, fields[idx[k]], pairs[k]))
    && (forall j, k :: 0 <= j < k < |idx| ==> idx[j] < idx[k])
    && (forall i: nat :: i < |fields| ==> (i in idx <==> TextOf(trim, typed, fields[i]) != ""))
  }

  ghost predicate FormFills(trim: string -> string, fields: seq<FormField>, typed: seq<(string, string)>, pairs: seq<(string, string)>) {
    exists idx :: FilledFrom(idx, trim, fields, typed, pairs)
  }

  /** A form that is not refused gives exactly its filled fields. */
  lemma {:induction false} PayloadFilled(trim: string -> string, fields: seq<FormField>, typed: seq<(string, string)>)
    requires Payload(trim, fields, typed).Some?
    ensures FormFills(trim, fields, typed, Payload(trim, fields, typed).value)
  {
    if fields == [] {
      assert FilledFrom([], trim, fields, typed, Payload(trim, fields, typed).value);
    } else {
      var rest, f := fields[..|fields| - 1], fields[|fields| - 1];
      assert fields == rest + [f];
      PayloadSnoc(trim, rest, f, typed);
      PayloadFilled(trim, rest, typed);
      FilledOn(trim, rest, typed, Payload(trim, rest, typed).value, f);
    }
  }

  lemma FilledOn(trim: string -> string, rest: seq<FormField>, typed: seq<(string, string)>, pairs: seq<(string, string)>, f: FormField)
    requires FormFills(trim, rest, typed, pairs)
    ensures var v := TextOf(trim, typed, f); FormFills(trim, rest + [f], typed, if v == "" then pairs else pairs + [(f.key, v)])
  {
    var idx: seq<nat> :| FilledFrom(idx, trim, rest, typed, pairs);
    OneField(idx, trim, rest, typed, pairs, f);
  }

  lemma PayloadSnoc(trim: string -> string, rest: seq<FormField>, f: FormField, typed: seq<(string, string)>)
    requires Payload(trim, rest + [f], typed).Some?
    ensures Payload(trim, rest, typed).Some?
    ensures var v, pairs := TextOf(trim, typed, f), Payload(trim, rest, typed).value;
            Payload(trim, rest + [f], typed).value == if v == "" then pairs else pairs + [(f.key, v)]
  {
    assert (rest + [f])[..|rest|] == rest;
  }

  lemma OneField(idx: seq<nat>, trim: string -> string, rest: seq<FormField>, typed: seq<(string, string)>, pairs: seq<(string, string)>, f: FormField)
    requires FilledFrom(idx, trim, rest, typed, pairs)
    ensures TextOf(trim, typed, f) == "" ==> FilledFrom(idx, trim, rest + [f], typed, pairs)
    ensures TextOf(trim, typed, f) != "" ==>
              FilledFrom(idx + [|rest|], trim, rest + [f], typed, pairs + [(f.key, TextOf(trim, typed, f))])
  {
    var fields, more := rest + [f], idx + [|rest|];
    assert forall i :: 0 <= i < |rest| ==> fields[i] == rest[i];
    assert more[|idx|] == |rest| && forall i :: i in idx ==> i in more;
  }

  /** The text of a key is that of the first pair which has it, or nothing when none has. */
  lemma {:induction false} TypedIsFirst(typed: seq<(string, string)>, key: string)
    ensures (forall i :: 0 <= i < |typed| ==> typed[i].0 != key) ==> TypedFor(typed, key) == ""
    ensures forall i :: 0 <= i < |typed| && typed[i].0 == key && (forall j :: 0 <= j < i ==> typed[j].0 != key) ==> TypedFor(typed, key) == typed[i].1
  {
    if typed != [] && typed[0].0 != key {
      TypedIsFirst(typed[1..], key);
      forall i | 0 <= i < |typed| && typed[i].0 == key && forall j :: 0 <= j < i ==> typed[j].0 != key
        ensures TypedFor(typed, key) == typed[i].1
      {
        assert typed[1..][i - 1] == typed[i];
        assert forall j :: 0 <= j < i - 1 ==> typed[1..][j] == typed[j + 1];
      }
    }
  }

  /** What the user of the terminal can do to the register. */
  datatype Action =
    | Save(name: string, nameOk: bool, text: string, editing: Option<string>, net: Net)
    | SaveForm(name: string, nameOk: bool, schema: Option<seq<FormField>>, typed: seq<(string, string)>,
               editing: Option<string>, bundleMeta: string, net: Net)
    | Delete(gone: seq<string>, net: Net)
    | Reload(answer: Option<seq<Raw>>)
  {
    ghost predicate Proper() {
      var answer := if Reload? then answer else net.reload;
      answer.Some? ==> OneEach(answer.value)
    }

    /** A reload that the server answers, with every entry usable. */
    ghost predicate Clean(open: (string, string) -> Option<string>) {
      Reload? && answer.Some? && forall i :: 0 <= i < |answer.value| ==> Usable(answer.value[i], open)
    }
  }

  // --------------------------------------------------------------- the register

  class Register {
    const tab: Table
    const open: (string, string) -> Option<string>
    const trim: string -> string
    var names: seq<string>
    var values: map<string, string>
    var meta: map<string, string>
    var before: map<string, string>
    var blocked: Option<string>
    var index: Index
    var signedIn: bool
    /** The body of every PUT that left, oldest first. */
    var puts: seq<seq<Entry>>

    constructor (tab: Table, open: (string, string) -> Option<string>, trim: string -> string, signedIn: bool)
      ensures InStep() && names == [] && blocked.None? && puts == []
      ensures this.tab == tab && this.open == open && this.trim == trim && this.signedIn == signedIn
    {
      this.tab := tab;
      this.open := open;
      this.trim := trim;
      names, values, meta, before := [], map[], map[], map[];
      blocked := None;
      index := Index(map[], map[]);
      this.signedIn := signedIn;
      puts := [];
      new;
      IndexFitsEmpty();
    }

    /** The maps hold the same names, and so does the pre-image whenever a save is possible. */
    ghost predicate InStep()
      reads this
    {
      && NoRepeats(names)
      && values.Keys == SetOf(names) && meta.Keys == SetOf(names)
      && (blocked.None? ==> before.Keys == SetOf(names))
      && IndexFits(names, index)
    }

    /** What the register holds, as the vault it stands for. */
    ghost function Holds(): P.View
      requires InStep()
      reads this
    {
      Zip(values, meta)
    }

    method Rebuild()
      requires NoRepeats(names) && values.Keys == SetOf(names) && meta.Keys == SetOf(names)
      modifies this`index
      ensures IndexFits(names, index)
    {
      var rows := Body(names, [], values, meta);
      BodyIsWhole(names, [], values, meta);
      var shapes, alone := ShapesOf(tab, rows);
      ShapesWellShaped(tab, rows, shapes, alone);
      index := Build(names, shapes);
    }

    method Fill(entries: seq<Entry>)
      requires DistinctNames(entries)
      modifies this`names, this`values, this`meta
      ensures Filled(names, values, meta, entries)
    {
      names, values, meta := [], map[], map[];
      for i := 0 to |entries|
        invariant Filled(names, values, meta, entries[..i])
      {
        var e := entries[i];
        FilledOneMore(names, values, meta, entries, i);
        names := names + [e.name];
        values := values[e.name := e.value];
        meta := meta[e.name := e.meta];
      }
      assert entries[..|entries|] == entries;
    }

    method ApplyLoaded(load: VaultLoad)
      requires LoadOk(load)
      modifies this`names, this`values, this`meta, this`before, this`blocked, this`index
      ensures InStep()
      ensures blocked.Some? <==> load.Dropped() > 0
      ensures before == load.before && Holds() == ViewOf(load.entries)
    {
      blocked := if load.Dropped() > 0 then Some("a save would delete them") else None;
      before := load.before;
      Fill(load.entries);
      FilledIsView(names, values, meta, load.entries);
      SameKeys(load, names, before, blocked);
      ghost var v, m := values, meta;
      Rebuild();
      assert values == v && meta == m;
      assert InStep();
    }

    /** After a reload: unblocked exactly if it was reached and nothing was dropped; holding what it brought, or what was held before. */
    ghost predicate Reloaded(reload: Option<seq<Raw>>, was: P.View)
      requires InStep()
      reads this
    {
      && (blocked.None? <==> reload.Some? && forall i :: 0 <= i < |reload.value| ==> Usable(reload.value[i], open))
      && Holds() == if reload.Some? then ViewOf(EntriesOf(reload.value, open)) else was
    }

    /** A reload either brings a whole new register, unblocked only if nothing was dropped, or blocks every save. */
    method LoadRegister(reload: Option<seq<Raw>>)
      requires InStep() && (reload.Some? ==> OneEach(reload.value))
      modifies this`names, this`values, this`meta, this`before, this`blocked, this`index
      ensures InStep()
      ensures signedIn ==> Reloaded(reload, old(Holds()))
      ensures !signedIn || reload.None? ==> names == old(names) && Holds() == old(Holds())
      ensures !signedIn ==> blocked == old(blocked)
    {
      if !signedIn {
        return;
      }
      match reload
      case Some(arr) =>
        var load := LoadVault(arr, open);
        ApplyLoaded(load);
      case None =>
        blocked := Some("vault");
    }

    /** The edit this save asks for, over what the register holds. */
    ghost function Wanted(writes: P.View, gone: seq<string>): P.View
      requires InStep()
      reads this
    {
      P.Edited(Holds(), P.Edit(writes, SetOf(gone)))
    }

    /**
     Save `writes`, dropping `gone`. A blocked register sends nothing and changes nothing. A
     PUT that leaves carries exactly the edit, each name once; and after a success the
     register holds the edit, with a pre-image of the same names.
     */
    method Commit(writes: seq<Entry>, gone: seq<string>, net: Net) returns (r: Result)
      requires InStep() && (net.reload.Some? ==> OneEach(net.reload.value))
      modifies this
      ensures InStep() && signedIn == old(signedIn) && !r.BadForm?
      ensures old(blocked).Some? ==> r == Refused
      ensures r.Refused? || r.NothingToSave? || r.SignedOut? ==>
                Holds() == old(Holds()) && puts == old(puts) && blocked == old(blocked) && names == old(names)
      ensures puts == old(puts) ||
              (exists body :: puts == old(puts) + [body] && DistinctNames(body) && ViewOf(body) == old(Wanted(FirstWins(writes), gone)))
      ensures r.Saved? ==>
                && puts != old(puts) && blocked.None?
                && Holds() == old(Wanted(LastWins(writes), gone))
                && before.Keys == Holds().Keys
      ensures r.SaveFailed? ==> Reloaded(net.reload, old(Holds()))
    {
      if blocked.Some? {
        return Refused;
      }
      if writes == [] {
        return NothingToSave;
      }
      var prospective := Prospective(writes, gone);
      var rows := Body(prospective, writes, values, meta);
      BodyIsEdit(prospective, writes, gone, values, meta);
      r := Send(prospective, rows, writes, gone, net);
    }

    /** The tail both commits share: the round trips, then the register follows or reloads. */
    method Send(prospective: seq<string>, rows: seq<Entry>, writes: seq<Entry>, gone: seq<string>, net: Net) returns (r: Result)
      requires InStep() && blocked.None? && (net.reload.Some? ==> OneEach(net.reload.value))
      requires NoRepeats(prospective) && DistinctNames(rows) && NamesIn(rows) == SetOf(prospective)
      requires SetOf(prospective) == SetOf(names) - SetOf(gone) + NamesIn(writes)
      modifies this
      ensures InStep() && signedIn == old(signedIn)
      ensures r.Saved? || r.SaveFailed? || r.SignedOut?
      ensures r.SignedOut? ==> Holds() == old(Holds()) && puts == old(puts) && blocked == old(blocked) && names == old(names)
      ensures puts == old(puts) || puts == old(puts) + [rows]
      ensures r.Saved? ==>
                && puts != old(puts) && blocked.None?
                && Holds() == old(Wanted(LastWins(writes), gone))
                && before.Keys == Holds().Keys
      ensures r.SaveFailed? ==> Reloaded(net.reload, old(Holds()))
    {
      if !signedIn {
        return SignedOut;
      }
      var written := SaveRows(rows, net);
      if written.None? {
        LoadRegister(net.reload);
        return SaveFailed;
      }
      Follow(prospective, written.value, writes, gone);
      return Saved;
    }

    /** The register follows a save that succeeded. */
    method Follow(prospective: seq<string>, written: map<string, string>, writes: seq<Entry>, gone: seq<string>)
      requires InStep() && blocked.None? && NoRepeats(prospective)
      requires SetOf(prospective) == SetOf(names) - SetOf(gone) + NamesIn(writes) == written.Keys
      modifies this`names, this`values, this`meta, this`before, this`index
      ensures InStep() && Holds() == old(Wanted(LastWins(writes), gone)) && before == written
    {
      before := written;
      names := prospective;
      DropGone(gone);
      PutWrites(writes);
      Rebuild();
    }

    /** The names after the save: those kept, then each new one. */
    method Prospective(writes: seq<Entry>, gone: seq<string>) returns (out: seq<string>)
      requires NoRepeats(names)
      ensures NoRepeats(out)
      ensures SetOf(out) == SetOf(names) - SetOf(gone) + NamesIn(writes)
    {
      out := Without(names, gone);
      WithoutNoRepeats(names, gone);
      for i := 0 to |writes|
        invariant NoRepeats(out)
        invariant SetOf(out) == SetOf(names) - SetOf(gone) + NamesIn(writes[..i])
      {
        assert writes[..i + 1] == writes[..i] + [writes[i]];
        NamesInSnoc(writes[..i], writes[i]);
        if writes[i].name !in out {
          assert SetOf(out + [writes[i].name]) == SetOf(out) + {writes[i].name};
          out := out + [writes[i].name];
        }
      }
      assert writes[..|writes|] == writes;
    }

    /** `save_rows`, then the check, the PUT and the read-back behind it: the pre-image as written, or None. */
    method SaveRows(rows: seq<Entry>, net: Net) returns (written: Option<map<string, string>>)
      requires DistinctNames(rows)
      modifies this`puts
      ensures puts == old(puts) || puts == old(puts) + [rows]
      ensures written.Some? ==> puts == old(puts) + [rows] && written.value.Keys == NamesIn(rows)
    {
      if !net.reached {
        return None;
      }
      puts := puts + [rows];
      if !net.saved {
        return None;
      }
      return Some(map n | n in NamesIn(rows) :: net.seal(n));
    }

    method DropGone(gone: seq<string>)
      requires values.Keys == meta.Keys
      modifies this`values, this`meta
      ensures values.Keys == meta.Keys && values.Keys == old(values).Keys - SetOf(gone)
      ensures Zip(values, meta) == old(Zip(values, meta)) - SetOf(gone)
    {
      for i := 0 to |gone|
        invariant values == old(values) - SetOf(gone[..i]) && meta == old(meta) - SetOf(gone[..i])
      {
        assert SetOf(gone[..i + 1]) == SetOf(gone[..i]) + {gone[i]};
        values := values - {gone[i]};
        meta := meta - {gone[i]};
      }
      assert gone[..|gone|] == gone;
    }

    /** The caller's value and meta, always, the last write of a name winning. */
    method PutWrites(writes: seq<Entry>)
      requires values.Keys == meta.Keys
      modifies this`values, this`meta
      ensures values.Keys == meta.Keys && values.Keys == old(values).Keys + NamesIn(writes)
      ensures Zip(values, meta) == old(Zip(values, meta)) + LastWins(writes)
    {
      for i := 0 to |writes|
        invariant values.Keys == meta.Keys && values.Keys == old(values).Keys + NamesIn(writes[..i])
        invariant Zip(values, meta) == old(Zip(values, meta)) + LastWins(writes[..i])
      {
        OneMoreWrite(writes, i);
        ghost var base, over := old(Zip(values, meta)), LastWins(writes[..i]);
        PutOne(writes[i], base, over);
      }
      assert writes[..|writes|] == writes;
    }

    method PutOne(e: Entry, ghost base: P.View, ghost over: P.View)
      requires values.Keys == meta.Keys && Zip(values, meta) == base + over
      modifies this`values, this`meta
      ensures values.Keys == meta.Keys == old(values).Keys + {e.name}
      ensures Zip(values, meta) == base + over[e.name := P.Plain(e.value, e.meta)]
    {
      ZipInsert(values, meta, e, base, over);
      values := values[e.name := e.value];
      meta := meta[e.name := e.meta];
    }

    /**
     How a save ends whose edit makes `wanted` of what was held. A blocked register sends
     nothing and stays blocked; a save that stops early changes nothing; what leaves is
     `wanted`, each name once; a success leaves the register holding it, and a failure leaves
     what the reload brings.
     */
    twostate predicate SaveEnds(r: Result, wanted: P.View, net: Net)
      requires old(InStep()) && InStep()
      reads this
    {
      && (old(blocked).Some? ==> r.BadForm? || r.Refused?)
      && (Stopped(r) ==> Holds() == old(Holds()) && puts == old(puts) && blocked == old(blocked) && names == old(names))
      && (puts == old(puts) || Sent(old(puts), wanted))
      && (r.Saved? ==> puts != old(puts) && blocked.None? && Holds() == wanted && before.Keys == wanted.Keys)
      && (r.SaveFailed? ==> Reloaded(net.reload, old(Holds())))
    }

    /** One more PUT has left, which carries `wanted`. */
    ghost predicate Sent(before: seq<seq<Entry>>, wanted: P.View)
      reads this
    {
      exists body :: puts == before + [body] && DistinctNames(body) && ViewOf(body) == wanted
    }

    method CommitDelete(gone: seq<string>, net: Net) returns (r: Result)
      requires InStep() && (net.reload.Some? ==> OneEach(net.reload.value))
      modifies this
      ensures InStep() && signedIn == old(signedIn) && !r.BadForm? && SaveEnds(r, old(Wanted(map[], gone)), net)
    {
      if blocked.Some? {
        return Refused;
      }
      if gone == [] {
        return NothingToSave;
      }
      var kept := Without(names, gone);
      KeptIsEdit(names, gone, values, meta);
      r := Send(kept, Body(kept, [], values, meta), [], gone, net);
    }

    // ----------------------------------------------------------------- the forms

    /** The entries a credential stands for, by its row. */
    function MembersOf(path: string): set<string>
      reads this
    {
      set n | n in names && n in index.owner && index.owner[n] == path
    }

    predicate IsBundle(path: string)
      reads this
    {
      path in index.creds && |index.creds[path].members| > 1
    }

    /** An edit may rename, but not onto a name that is taken by anyone but itself. */
    predicate RenameCollision(editing: Option<string>, name: string)
      reads this
    {
      editing.Some? && editing.value != name &&
      exists n :: n in names && (n == name || (Under(n, name) && n !in MembersOf(editing.value)))
    }

    /** `shapes` are those the index was made of. */
    ghost predicate MadeOf(shapes: seq<Shape>, alone: nat)
      reads this
    {
      WellShaped(SetOf(names), shapes, alone) && index == AddNames(AddShapes(names, shapes), names)
    }

    /** A credential's entries are what its shape claims, or the entry of that name when no shape claims it. */
    lemma MembersMean(shapes: seq<Shape>, alone: nat, path: string, n: string)
      requires MadeOf(shapes, alone)
      ensures n in MembersOf(path) <==>
                n in names && ((exists i :: ClaimedBy(shapes, i, n) && shapes[i].name == path) || (n == path && !Claimed(shapes, n)))
    {
      if n in names {
        OwnerMeans(names, shapes, alone, n, path);
      }
    }

    /** A credential is stored as siblings exactly when it is a group whose own name is not stored. */
    lemma FusedMeans(shapes: seq<Shape>, alone: nat, path: string)
      requires MadeOf(shapes, alone)
      ensures IsFused(Some(path)) <==> path !in names && GroupNamed(shapes, alone, path)
      ensures !IsFused(None)
    {
      if path !in names {
        GroupMeans(names, shapes, alone, path);
      }
    }

    /** A rename collides exactly when another name's entry is stored under the new name, or below it and no part of the credential. */
    lemma CollisionMeans(editing: Option<string>, name: string)
      ensures RenameCollision(editing, name) <==>
                && editing.Some? && editing.value != name
                && (name in names || exists rest :: name + "/" + rest in names && name + "/" + rest !in MembersOf(editing.value))
    {
      if RenameCollision(editing, name) && name !in names {
        var n :| n in names && Under(n, name) && n !in MembersOf(editing.value);
        assert n == name + "/" + n[|name| + 1..];
      }
      if editing.Some? && editing.value != name {
        if rest :| name + "/" + rest in names && name + "/" + rest !in MembersOf(editing.value) {
          assert Under(name + "/" + rest, name);
        }
      }
    }

    /** What is held, with one entry added, changed or moved. */
    ghost function Moved(name: string, plain: P.Plain, editing: Option<string>): P.View
      requires InStep()
      reads this
    {
      if editing.Some? && editing.value != name then (Holds() - {editing.value})[name := plain] else Holds()[name := plain]
    }

    lemma MovedIs(e: Entry, editing: Option<string>, gone: seq<string>)
      requires InStep() && gone == if editing.Some? && editing.value != e.name then [editing.value] else []
      ensures FirstWins([e]) == LastWins([e])
      ensures Wanted(LastWins([e]), gone) == Moved(e.name, P.Plain(e.value, e.meta), editing)
    {
      SingleWrite(e);
      WritesAgreeIff([e]);
      OneEdit(Holds(), e, gone);
    }

    /** A single value. A rename moves the entry: the old name leaves, the new one was free. */
    method CommitSingle(name: string, nameOk: bool, text: string, editing: Option<string>, net: Net) returns (r: Result)
      requires InStep() && (net.reload.Some? ==> OneEach(net.reload.value))
      modifies this
      ensures InStep() && signedIn == old(signedIn) && SaveEnds(r, old(Moved(name, P.Plain(text, EMPTY_META), editing)), net)
      ensures r.BadForm? <==> !nameOk || old(RenameCollision(editing, name))
      ensures r.Saved? && editing.Some? && editing.value != name ==> name !in old(names)
    {
      if !nameOk {
        return BadForm;
      }
      if RenameCollision(editing, name) {
        return BadForm;
      }
      var e := Entry(name, text, EMPTY_META);
      var gone := if editing.Some? && editing.value != name then [editing.value] else [];
      MovedIs(e, editing, gone);
      r := Commit([e], gone, net);
    }

    /** The credential being edited is stored as siblings. */
    predicate IsFused(editing: Option<string>)
      reads this
    {
      editing.Some? && editing.value !in names && IsBundle(editing.value)
    }

    /** A stored entry is written over that is no part of the credential being edited. */
    ghost predicate OverStranger(editing: Option<string>, writes: seq<Entry>)
      reads this
    {
      exists n :: n in NamesIn(writes) && n in names && (editing.Some? ==> n != editing.value && n !in MembersOf(editing.value))
    }

    /** Field `k` of the credential would be stored under a name that is taken by somebody else. */
    predicate FieldTaken(name: string, k: string)
      reads this
    {
      name + "/" + k in names && name + "/" + k !in MembersOf(name)
    }

    /** What a form of a known schema is filled with. */
    function Fills(schema: Option<seq<FormField>>, typed: seq<(string, string)>): Option<seq<(string, string)>> {
      if schema.Some? then Payload(trim, schema.value, typed) else None
    }

    /** A new credential takes a stored name, or an edit in place gives a fused one a field whose name is taken. */
    ghost predicate TakesOver(name: string, pairs: seq<(string, string)>, editing: Option<string>)
      reads this
    {
      if editing.None? then name in names
      else editing.value == name && IsFused(editing) && exists p :: p in pairs && FieldTaken(name, p.0)
    }

    ghost predicate FormTakesOver(name: string, schema: Option<seq<FormField>>, typed: seq<(string, string)>, editing: Option<string>)
      reads this
    {
      TakesOver(name, Fills(schema, typed).GetOr([]), editing)
    }

    /** What a form writes: its fields one by one over a credential stored as siblings, else one JSON bundle. */
    ghost function Written(name: string, pairs: seq<(string, string)>, editing: Option<string>, bundleMeta: string): seq<Entry>
      reads this
    {
      if IsFused(editing) then Siblings(name, pairs) else [Entry(name, PayloadJson.Print(pairs), bundleMeta)]
    }

    /** What leaves with it: the siblings not written again, else the old name of a renamed bundle. */
    ghost function Left(name: string, writes: seq<Entry>, editing: Option<string>): set<string>
      reads this
    {
      if IsFused(editing) then MembersOf(editing.value) - NamesIn(writes)
      else if editing.Some? && editing.value != name then {editing.value}
      else {}
    }

    /** The writes are those of the filled form, and what leaves is what it leaves behind. */
    ghost predicate Edits(name: string, schema: Option<seq<FormField>>, typed: seq<(string, string)>,
                          editing: Option<string>, bundleMeta: string, writes: seq<Entry>, gone: seq<string>)
      reads this
    {
      && writes == Written(name, Fills(schema, typed).GetOr([]), editing, bundleMeta)
      && SetOf(gone) == Left(name, writes, editing)
    }

    /** The entries a provider form writes: its fields one by one over a fused bundle, else one JSON bundle. */
    method CommitProvider(name: string, nameOk: bool, schema: Option<seq<FormField>>, typed: seq<(string, string)>,
                          editing: Option<string>, bundleMeta: string, net: Net)
      returns (r: Result, ghost writes: seq<Entry>, ghost gone: seq<string>)
      requires InStep() && (net.reload.Some? ==> OneEach(net.reload.value))
      modifies this
      ensures InStep() && signedIn == old(signedIn) && SaveEnds(r, old(Wanted(LastWins(writes), gone)), net)
      ensures r.BadForm? <==> !nameOk || Fills(schema, typed).None? || old(RenameCollision(editing, name))
      ensures !r.BadForm? ==> old(Edits(name, schema, typed, editing, bundleMeta, writes, gone))
      // All that leaves belongs to the credential being edited.
      ensures forall n :: n in gone ==> editing.Some? && (n == editing.value || n in old(MembersOf(editing.value)))
      // A rename writes over nothing but the credential's own entries.
      ensures r.Saved? && editing.Some? && editing.value != name ==>
                forall n :: n in NamesIn(writes) && n in old(names) ==> n in old(MembersOf(editing.value))
      ensures r.Saved? ==> forall n :: n in NamesIn(writes) ==> n == name || Under(n, name)
      // Somebody else's entry is written over exactly when a new credential takes a stored name, or
      // an edit in place gives a fused one a field whose name is taken.
      ensures r.Saved? ==> (old(OverStranger(editing, writes)) <==> old(FormTakesOver(name, schema, typed, editing)))
    {
      writes, gone := [], [];
      if !nameOk || schema.None? {
        return BadForm, writes, gone;
      }
      var payload := BuildPayload(trim, schema.value, typed);
      if payload.None? {
        return BadForm, writes, gone;
      }
      if RenameCollision(editing, name) {
        return BadForm, writes, gone;
      }
      PayloadIsSteady(trim, schema.value, typed);
      var out, left := FormWrites(name, payload.value, editing, bundleMeta);
      writes, gone := out, left;
      r := Commit(out, left, net);
    }

    /** What a form that may be saved writes and drops. */
    method FormWrites(name: string, pairs: seq<(string, string)>, editing: Option<string>, bundleMeta: string)
      returns (out: seq<Entry>, left: seq<string>)
      requires InStep() && Steady(pairs) && !RenameCollision(editing, name)
      ensures FirstWins(out) == LastWins(out)
      ensures out == Written(name, pairs, editing, bundleMeta) && SetOf(left) == Left(name, out, editing)
      ensures forall n :: n in left ==> editing.Some? && (n == editing.value || n in MembersOf(editing.value))
      ensures editing.Some? && editing.value != name ==>
                forall n :: n in NamesIn(out) && n in names ==> n in MembersOf(editing.value)
      ensures forall n :: n in NamesIn(out) ==> n == name || Under(n, name)
      ensures OverStranger(editing, out) <==> TakesOver(name, pairs, editing)
    {
      if IsFused(editing) {
        out := Siblings(name, pairs);
        left := MembersNotWritten(editing.value, out);
        SteadySiblingsAgree(name, pairs);
        SiblingsOver(name, pairs);
        FusedOver(name, pairs, editing.value);
      } else {
        var text := PayloadJson.PayloadJson(pairs);
        out := [Entry(name, text, bundleMeta)];
        SingleWrite(out[0]);
        WritesAgreeIff(out);
        left := if editing.Some? && editing.value != name then [editing.value] else [];
        assert name in NamesIn(out);
      }
    }

    lemma FusedOver(name: string, pairs: seq<(string, string)>, was: string)
      requires IsFused(Some(was)) && !RenameCollision(Some(was), name)
      ensures OverStranger(Some(was), Siblings(name, pairs))
              <==> was == name && exists p :: p in pairs && FieldTaken(name, p.0)
    {
      var out := Siblings(name, pairs);
      SiblingsOver(name, pairs);
      if OverStranger(Some(was), out) {
        var n :| n in NamesIn(out) && n in names && n != was && n !in MembersOf(was);
        assert Under(n, name) && was == name;
        var p :| p in pairs && n == name + "/" + p.0;
        assert FieldTaken(name, p.0);
      }
      if was == name && exists p :: p in pairs && FieldTaken(name, p.0) {
        var p :| p in pairs && FieldTaken(name, p.0);
        var n := name + "/" + p.0;
        assert n in NamesIn(out) && |n| > |name|;
      }
    }

    method MembersNotWritten(path: string, writes: seq<Entry>) returns (left: seq<string>)
      ensures forall n :: n in left <==> n in MembersOf(path) && n !in NamesIn(writes)
    {
      left := [];
      for i := 0 to |names|
        invariant forall n :: n in left <==> n in names[..i] && n in MembersOf(path) && n !in NamesIn(writes)
      {
        assert names[..i + 1] == names[..i] + [names[i]];
        if names[i] in MembersOf(path) && names[i] !in NamesIn(writes) {
          left := left + [names[i]];
        }
      }
      assert names[..|names|] == names;
    }

    // ------------------------------------------------------------------ a session

    method Act(a: Action)
      requires InStep() && a.Proper()
      modifies this
      ensures InStep() && signedIn == old(signedIn)
      ensures old(puts) <= puts && |puts| <= |old(puts)| + 1
      ensures old(blocked).Some? ==> puts == old(puts)
      ensures old(blocked).Some? && !a.Clean(open) ==> blocked.Some?
      ensures puts != old(puts) ==> a.Save? || a.SaveForm? || a.Delete?
      ensures old(blocked).Some? && !a.Reload? ==> Holds() == old(Holds())
    {
      match a
      case Save(name, nameOk, text, editing, net) =>
        var _ := CommitSingle(name, nameOk, text, editing, net);
      case SaveForm(name, nameOk, schema, typed, editing, bundleMeta, net) =>
        var _, _, _ := CommitProvider(name, nameOk, schema, typed, editing, bundleMeta, net);
      case Delete(gone, net) =>
        var _ := CommitDelete(gone, net);
      case Reload(answer) =>
        LoadRegister(answer);
    }

    /**
     Any number of actions, one after another. A register that is blocked sends nothing and
     stays blocked until a reload in which the server answers and every entry is usable.
     */
    method Session(actions: seq<Action>)
      requires InStep() && forall a :: a in actions ==> a.Proper()
      modifies this
      ensures InStep() && signedIn == old(signedIn) && old(puts) <= puts
      ensures old(blocked).Some? && (forall a :: a in actions ==> !a.Clean(open)) ==> blocked.Some? && puts == old(puts)
      ensures old(blocked).Some? && (forall a :: a in actions ==> !a.Reload?) ==> Holds() == old(Holds())
    {
      for i := 0 to |actions|
        invariant InStep() && signedIn == old(signedIn) && old(puts) <= puts
        invariant old(blocked).Some? && (forall a :: a in actions[..i] ==> !a.Clean(open)) ==> blocked.Some? && puts == old(puts)
        invariant old(blocked).Some? && (forall a :: a in actions[..i] ==> !a.Reload?) ==> blocked.Some? && Holds() == old(Holds())
      {
        assert actions[..i + 1] == actions[..i] + [actions[i]];
        Act(actions[i]);
      }
      assert actions[..|actions|] == actions;
    }
  }

  /** `n` lies below `path`. */
  predicate Under(n: string, path: string) {
    |n| > |path| && n[..|path|] == path && n[|path|] == '/'
  }

  /** Below a path is what starts with it and a slash. */
  lemma UnderIff(n: string, path: string)
    ensures Under(n, path) <==> exists rest :: n == path + "/" + rest
  {
    if Under(n, path) {
      assert n == path + "/" + n[|path| + 1..];
    }
  }

  lemma SingleWrite(e: Entry)
    ensures LastWins([e]) == map[e.name := P.Plain(e.value, e.meta)] && NamesIn([e]) == {e.name}
  {
    assert [e][..0] == [];
  }

  lemma OneEdit(held: P.View, e: Entry, gone: seq<string>)
    ensures P.Edited(held, P.Edit(LastWins([e]), SetOf(gone))) == (held - SetOf(gone))[e.name := P.Plain(e.value, e.meta)]
    ensures |gone| == 1 ==> SetOf(gone) == {gone[0]}
    ensures gone == [] ==> held - SetOf(gone) == held
  {
    SingleWrite(e);
  }

  /** `{name}/{k}` for each field. */
  function Siblings(name: string, pairs: seq<(string, string)>): (out: seq<Entry>)
    ensures |out| == |pairs| && forall i :: 0 <= i < |pairs| ==> out[i] == Entry(name + "/" + pairs[i].0, pairs[i].1, EMPTY_META)
    ensures forall n :: n in NamesIn(out) ==> Under(n, name)
  {
    seq(|pairs|, i requires 0 <= i < |pairs| => Entry(name + "/" + pairs[i].0, pairs[i].1, EMPTY_META))
  }

  /** A key that comes twice comes with one value. */
  ghost predicate Steady(pairs: seq<(string, string)>) {
    forall i, j :: 0 <= i < |pairs| && 0 <= j < |pairs| && pairs[i].0 == pairs[j].0 ==> pairs[i].1 == pairs[j].1
  }

  /** A form looks a key up in what was typed, so even a schema that repeats a key gives it one value. */
  lemma PayloadIsSteady(trim: string -> string, fields: seq<FormField>, typed: seq<(string, string)>)
    requires Payload(trim, fields, typed).Some?
    ensures Steady(Payload(trim, fields, typed).value)
  {
    PayloadValues(trim, fields, typed);
    var pairs := Payload(trim, fields, typed).value;
    assert forall i :: 0 <= i < |pairs| ==> pairs[i] in pairs;
  }

  /** So the siblings it writes are sent as they are then held. */
  lemma SteadySiblingsAgree(name: string, pairs: seq<(string, string)>)
    requires Steady(pairs)
    ensures FirstWins(Siblings(name, pairs)) == LastWins(Siblings(name, pairs))
  {
    var writes := Siblings(name, pairs);
    forall i, j | 0 <= i < |writes| && 0 <= j < |writes| && writes[i].name == writes[j].name
      ensures writes[i].value == writes[j].value && writes[i].meta == writes[j].meta
    {
      SamePath(name, pairs[i].0, pairs[j].0);
    }
    assert EndsAgree(writes);
    WritesAgreeIff(writes);
  }

  lemma SamePath(p: string, k: string, l: string)
    requires p + "/" + k == p + "/" + l
    ensures k == l
  {
    assert k == (p + "/" + k)[|p| + 1..] && l == (p + "/" + l)[|p| + 1..];
  }

  /** What siblings are called. */
  lemma SiblingsOver(name: string, pairs: seq<(string, string)>)
    ensures forall n :: n in NamesIn(Siblings(name, pairs)) <==> exists p :: p in pairs && n == name + "/" + p.0
  {
    var out := Siblings(name, pairs);
    forall n | n in NamesIn(out)
      ensures exists p :: p in pairs && n == name + "/" + p.0
    {
      var i :| 0 <= i < |out| && out[i].name == n;
      assert pairs[i] in pairs;
    }
    forall p | p in pairs
      ensures name + "/" + p.0 in NamesIn(out)
    {
      var i :| 0 <= i < |pairs| && pairs[i] == p;
      assert out[i].name == name + "/" + p.0;
    }
  }

  /**
   An edit in place can write over a stranger: beside a fused credential p, a bundle stored
   under p/c by itself is no member of p, so a form that fills in a field c takes its name.
   */
  lemma StrangerBelow(names: seq<string>, shapes: seq<Shape>, alone: nat, i: nat, j: nat)
    requires WellShaped(SetOf(names), shapes, alone) && i < alone <= j < |shapes|
    requires shapes[j].name !in names && Under(shapes[i].name, shapes[j].name)
    ensures var ix := AddNames(AddShapes(names, shapes), names);
            && shapes[j].name in ix.creds && ix.creds[shapes[j].name].members == shapes[j].members && |shapes[j].members| > 1
            && shapes[i].name in names && shapes[i].name in ix.owner && ix.owner[shapes[i].name] != shapes[j].name
  {
    AfterShapes(names, shapes, alone);
    AfterNames(AddShapes(names, shapes), names);
    assert ClaimedBy(shapes, i, shapes[i].name);
    assert Single(SetOf(names), shapes[i]) && Group(SetOf(names), shapes[j]);
    assert forall k :: 0 <= k < alone ==> Single(SetOf(names), shapes[k]) && shapes[k].name in names;
    assert LastNamed(shapes, j, shapes[j].name);
  }

  /** Three entries, the last a bundle by itself. */
  function BesideRows(x: string, y: string, z: string): seq<Entry> {
    [Entry(x, "1", EMPTY_META)] + [Entry(y, "2", EMPTY_META)] + [Entry(z, "{}", EMPTY_META)]
  }

  /** A table that knows one provider, whose bundles are the text `{}` and whose keys are any. */
  function BesideTable(provider: Option<string>): Table {
    Table((e: Entry) => if e.value == "{}" then Some("it") else None, t => t != "{}", m => None, (keys, agreed, values) => Some(provider))
  }

  /** Siblings x and y of parent p fuse; z, a bundle, stays out, and nothing else fuses. */
  lemma BesideFused(provider: Option<string>, p: string, x: string, y: string, z: string, k: string, l: string, q: string)
    requires Cut(x) == Some((p, k)) && Cut(y) == Some((p, l))
    ensures Fused(BesideTable(provider), BesideRows(x, y, z), q) == if q == p then Some(Shape(p, provider, [x, y])) else None
  {
    var tab, rows := BesideTable(provider), BesideRows(x, y, z);
    FieldsSnoc(tab, [], rows[0], q);
    FieldsSnoc(tab, [rows[0]], rows[1], q);
    FieldsSnoc(tab, [rows[0]] + [rows[1]], rows[2], q);
    assert [] + [rows[0]] == [rows[0]];
    if q == p {
      var f, g := FieldOf(rows[0]), FieldOf(rows[1]);
      KeysSnoc(tab, [], f);
      KeysSnoc(tab, [f], g);
      assert FieldsUnder(tab, rows, q) == [] + [f] + [g] && [] + [f] == [f];
      assert KeysOf(tab, [f] + [g]) == [k, l];
      assert Paths(p, [k, l]) == [x, y];
    }
  }

  lemma BesideBundles(provider: Option<string>, x: string, y: string, z: string)
    ensures Bundles(BesideTable(provider), BesideRows(x, y, z)) == [Shape(z, Some("it"), [z])]
  {
    var tab, rows := BesideTable(provider), BesideRows(x, y, z);
    BundlesSnoc(tab, [], rows[0]);
    BundlesSnoc(tab, [rows[0]], rows[1]);
    BundlesSnoc(tab, [rows[0]] + [rows[1]], rows[2]);
    assert [] + [rows[0]] == [rows[0]];
  }

  /** What the walk returns for such rows. */
  lemma BesideWalk(provider: Option<string>, p: string, x: string, y: string, z: string, k: string, l: string, shapes: seq<Shape>, alone: nat)
    requires Cut(x) == Some((p, k)) && Cut(y) == Some((p, l))
    requires alone <= |shapes| && shapes[..alone] == Bundles(BesideTable(provider), BesideRows(x, y, z))
    requires FusedExactly(BesideTable(provider), BesideRows(x, y, z), shapes[alone..])
    ensures alone == 1 && shapes == [Shape(z, Some("it"), [z])] + [Shape(p, provider, [x, y])]
  {
    BesideBundles(provider, x, y, z);
    BesideFused(provider, p, x, y, z, k, l, p);
    var groups := shapes[alone..];
    forall i | 0 <= i < |groups|
      ensures groups[i] == Shape(p, provider, [x, y])
    {
      BesideFused(provider, p, x, y, z, k, l, groups[i].name);
    }
    assert Shape(p, provider, [x, y]) in groups && (|groups| > 1 ==> groups[0].name != groups[1].name);
    assert shapes == shapes[..alone] + groups;
  }

  lemma BesideNames(p: string)
    ensures Cut(p + "/" + "a") == Some((p, "a")) && Cut(p + "/" + "b") == Some((p, "b"))
    ensures p + "/" + "a" != p + "/" + "b" && p + "/" + "b" != p + "/" + "c" && p + "/" + "a" != p + "/" + "c"
    ensures p != p + "/" + "a" && p != p + "/" + "b" && p != p + "/" + "c" && Under(p + "/" + "c", p)
  {
    CutUnique(p, "a");
    CutUnique(p, "b");
    var x, y, z := p + "/" + "a", p + "/" + "b", p + "/" + "c";
    assert x[|p| + 1] == 'a' && y[|p| + 1] == 'b' && z[|p| + 1] == 'c';
    assert |x| == |y| == |z| == |p| + 2 && z[..|p|] == p && z[|p|] == '/';
  }

  /**
   Such a vault there is, for any path p and any provider: whatever the walk returns for the
   rows p/a, p/b and the bundle p/c, the bundle stands alone, and beside it is the group of the
   other two under the name p, which is not stored.
   */
  lemma StrangerStored(provider: Option<string>, p: string, x: string, y: string, z: string, shapes: seq<Shape>, alone: nat)
    requires x == p + "/" + "a" && y == p + "/" + "b" && z == p + "/" + "c"
    requires alone <= |shapes| && shapes[..alone] == Bundles(BesideTable(provider), BesideRows(x, y, z))
    requires FusedExactly(BesideTable(provider), BesideRows(x, y, z), shapes[alone..])
    ensures alone == 1 && shapes == [Shape(z, Some("it"), [z])] + [Shape(p, provider, [x, y])]
    ensures DistinctNames(BesideRows(x, y, z)) && p !in NamesIn(BesideRows(x, y, z)) && Under(z, p)
  {
    BesideNames(p);
    BesideWalk(provider, p, x, y, z, "a", "b", shapes, alone);
    BesideStored(p, x, y, z);
  }

  lemma BesideStored(p: string, x: string, y: string, z: string)
    requires x != y && y != z && x != z && p != x && p != y && p != z
    ensures DistinctNames(BesideRows(x, y, z)) && p !in NamesIn(BesideRows(x, y, z))
  {
  }

  /** The index is one `build` could have made for these names. */
  ghost predicate IndexFits(names: seq<string>, ix: Index) {
    exists shapes, alone :: WellShaped(SetOf(names), shapes, alone) && ix == AddNames(AddShapes(names, shapes), names)
  }

  lemma IndexFitsEmpty()
    ensures IndexFits([], Index(map[], map[]))
  {
    assert WellShaped(SetOf([]), [], 0);
    assert AddNames(AddShapes([], []), []) == Index(map[], map[]);
  }
}
