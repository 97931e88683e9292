/**
 The `entries` and `versions` tables and what a whole-vault replace and a rollback do to
 them. `versions` is kept in insertion order; nothing ever deletes from it.
 */
module VaultTables {
  import opened Wrappers

  datatype Entry = Entry(ct: string, meta: string)
  datatype Version = Version(name: string, number: int, ct: string, meta: string, created: string)
  /** One entry of a PUT body. */
  datatype PutRow = PutRow(name: string, ct: string, meta: string)

  /** `SELECT COALESCE(MAX(seq), 0) FROM versions WHERE name = ?`. */
  function Latest(versions: seq<Version>, name: string): int {
    if versions == [] then 0
    else
      var v := versions[|versions| - 1];
      var rest := Latest(versions[..|versions| - 1], name);
      if v.name == name && v.number > rest then v.number else rest
  }

  /** The versions of one name, oldest first. */
  function History(versions: seq<Version>, name: string): seq<Version> {
    if versions == [] then []
    else
      var v := versions[|versions| - 1];
      var rest := History(versions[..|versions| - 1], name);
      if v.name == name then rest + [v] else rest
  }

  /** The primary key of `versions` is `(name, seq)`. */
  predicate KeyFree(versions: seq<Version>, name: string, number: int) {
    forall i :: 0 <= i < |versions| ==> !(versions[i].name == name && versions[i].number == number)
  }

  function NextVersion(versions: seq<Version>, name: string, ct: string, meta: string, created: string): Version {
    Version(name, Latest(versions, name) + 1, ct, meta, created)
  }

  /** A name's ciphertext appears or differs: the snapshot comparison of a PUT. */
  predicate Changes(before: map<string, Entry>, row: PutRow) {
    !(row.name in before && before[row.name].ct == row.ct)
  }

  predicate Distinct(rows: seq<PutRow>) {
    forall i, j :: 0 <= i < j < |rows| ==> rows[i].name != rows[j].name
  }

  /** The version rows after the PUT has gone through `rows` in order. */
  function PutVersions(before: map<string, Entry>, versions: seq<Version>, rows: seq<PutRow>, created: string): seq<Version> {
    if rows == [] then versions
    else
      var row := rows[|rows| - 1];
      var sofar := PutVersions(before, versions, rows[..|rows| - 1], created);
      if Changes(before, row) then sofar + [NextVersion(sofar, row.name, row.ct, row.meta, created)] else sofar
  }

  /** The entries table after the PUT has emptied it and inserted `rows` in order. */
  function PutEntries(rows: seq<PutRow>): map<string, Entry> {
    if rows == [] then map[]
    else
      var row := rows[|rows| - 1];
      PutEntries(rows[..|rows| - 1])[row.name := Entry(row.ct, row.meta)]
  }

  // ------------------------------------------------------- what the tables keep

  ghost predicate NumberedFromOne(h: seq<Version>) {
    forall k :: 0 <= k < |h| ==> h[k].number == k + 1
  }

  /** Sequence numbers are 1..n per name, and a stored entry is its newest version. */
  ghost predicate VersionsOk(entries: map<string, Entry>, versions: seq<Version>) {
    && (forall name: string :: NumberedFromOne(History(versions, name)))
    && (forall name: string :: name in entries ==> EntryIsNewest(entries[name], History(versions, name)))
  }

  ghost predicate EntryIsNewest(e: Entry, h: seq<Version>) {
    h != [] && h[|h| - 1].ct == e.ct
  }

  lemma HistoryOfAppend(versions: seq<Version>, v: Version, name: string)
    ensures History(versions + [v], name) == if v.name == name then History(versions, name) + [v] else History(versions, name)
  {
    assert (versions + [v])[..|versions|] == versions;
  }

  lemma {:induction false} HistoryMembers(versions: seq<Version>, name: string)
    ensures forall v :: v in History(versions, name) <==> v in versions && v.name == name
  {
    if versions != [] {
      var n := |versions| - 1;
      HistoryMembers(versions[..n], name);
      assert versions == versions[..n] + [versions[n]];
    }
  }

  /** MAX(seq) is the length of a history numbered from one. */
  lemma {:induction false} LatestIsCount(versions: seq<Version>, name: string)
    requires NumberedFromOne(History(versions, name))
    ensures Latest(versions, name) == |History(versions, name)|
  {
    if versions != [] {
      var n := |versions| - 1;
      var rest := History(versions[..n], name);
      assert rest == History(versions, name)[..|rest|];
      LatestIsCount(versions[..n], name);
      if versions[n].name == name {
        assert History(versions, name)[|rest|] == versions[n];
      }
    }
  }

  /** So the row a PUT or a rollback inserts never meets the primary key. */
  lemma NextKeyFree(versions: seq<Version>, name: string)
    requires NumberedFromOne(History(versions, name))
    ensures KeyFree(versions, name, Latest(versions, name) + 1)
  {
    LatestIsCount(versions, name);
    HistoryMembers(versions, name);
    forall i | 0 <= i < |versions|
      ensures !(versions[i].name == name && versions[i].number == Latest(versions, name) + 1)
    {
      if versions[i].name == name {
        assert versions[i] in History(versions, name);
      }
    }
  }

  lemma AppendNextNumbered(versions: seq<Version>, v: Version)
    requires forall name: string :: NumberedFromOne(History(versions, name))
    requires v.number == Latest(versions, v.name) + 1
    ensures forall name: string :: NumberedFromOne(History(versions + [v], name))
  {
    forall name: string
      ensures NumberedFromOne(History(versions + [v], name))
    {
      HistoryOfAppend(versions, v, name);
      LatestIsCount(versions, v.name);
    }
  }

  /** The row of a PUT for one name, when there is one. */
  function RowOf(rows: seq<PutRow>, name: string): (r: Option<PutRow>)
    ensures r.Some? <==> exists i :: 0 <= i < |rows| && rows[i].name == name
    ensures r.Some? ==> r.value in rows && r.value.name == name
  {
    if rows == [] then None
    else if rows[|rows| - 1].name == name then Some(rows[|rows| - 1])
    else RowOf(rows[..|rows| - 1], name)
  }

  /**
   What one PUT does to one name's history: it grows by exactly one version, numbered next
   and carrying the row's ciphertext and meta, when the name was not stored or its ciphertext
   was another; else it is untouched.
   */
  lemma {:induction false} PutHistory(before: map<string, Entry>, versions: seq<Version>, rows: seq<PutRow>, created: string, name: string)
    requires Distinct(rows) && forall n: string :: NumberedFromOne(History(versions, n))
    ensures forall n: string :: NumberedFromOne(History(PutVersions(before, versions, rows, created), n))
    ensures versions <= PutVersions(before, versions, rows, created)
    ensures var h := History(versions, name);
            var row := RowOf(rows, name);
            History(PutVersions(before, versions, rows, created), name) ==
            if row.Some? && (name !in before || before[name].ct != row.value.ct)
            then h + [Version(name, |h| + 1, row.value.ct, row.value.meta, created)]
            else h
  {
    if rows != [] {
      var n := |rows| - 1;
      var row := rows[n];
      var sofar := PutVersions(before, versions, rows[..n], created);
      PutHistory(before, versions, rows[..n], created, name);
      if Changes(before, row) {
        var v := NextVersion(sofar, row.name, row.ct, row.meta, created);
        AppendNextNumbered(sofar, v);
        HistoryOfAppend(sofar, v, name);
        LatestIsCount(sofar, name);
      }
    }
  }

  /** A PUT that sends the stored ciphertexts again, under whatever metas, adds no version at all. */
  lemma {:induction false} ResendAddsNothing(before: map<string, Entry>, versions: seq<Version>, rows: seq<PutRow>, created: string)
    requires forall i :: 0 <= i < |rows| ==> rows[i].name in before && before[rows[i].name].ct == rows[i].ct
    ensures PutVersions(before, versions, rows, created) == versions
  {
    if rows != [] {
      ResendAddsNothing(before, versions, rows[..|rows| - 1], created);
    }
  }

  /** A PUT leaves exactly its rows, whatever was there before. */
  lemma {:induction false} PutEntriesExact(rows: seq<PutRow>, name: string)
    requires Distinct(rows)
    ensures name in PutEntries(rows) <==> RowOf(rows, name).Some?
    ensures name in PutEntries(rows) ==> PutEntries(rows)[name] == Entry(RowOf(rows, name).value.ct, RowOf(rows, name).value.meta)
  {
    if rows != [] {
      PutEntriesExact(rows[..|rows| - 1], name);
    }
  }

  lemma PutKeepsVersions(entries: map<string, Entry>, versions: seq<Version>, rows: seq<PutRow>, created: string)
    requires Distinct(rows) && VersionsOk(entries, versions)
    ensures VersionsOk(PutEntries(rows), PutVersions(entries, versions, rows, created))
    ensures forall name: string :: History(versions, name) <= History(PutVersions(entries, versions, rows, created), name)
  {
    var entries', versions' := PutEntries(rows), PutVersions(entries, versions, rows, created);
    PutHistory(entries, versions, rows, created, "");
    forall name: string
      ensures History(versions, name) <= History(versions', name)
      ensures name in entries' ==> EntryIsNewest(entries'[name], History(versions', name))
    {
      PutHistory(entries, versions, rows, created, name);
      PutEntriesExact(rows, name);
    }
  }

  // ------------------------------------------------------------------- rollback

  /** `SELECT ciphertext, meta FROM versions WHERE name = ? AND seq = ?`. */
  function FindVersion(versions: seq<Version>, name: string, number: int): (v: Option<Version>)
    ensures v.Some? <==> !KeyFree(versions, name, number)
    ensures v.Some? ==> v.value in versions && v.value.name == name && v.value.number == number
  {
    if versions == [] then None
    else
      var last := versions[|versions| - 1];
      if last.name == name && last.number == number then
        Some(last)
      else
        assert versions == versions[..|versions| - 1] + [last];
        FindVersion(versions[..|versions| - 1], name, number)
  }

  /** On numbered histories a version is found exactly when its number is in range, at its own place. */
  lemma FindVersionExact(versions: seq<Version>, name: string, number: int)
    requires NumberedFromOne(History(versions, name))
    ensures FindVersion(versions, name, number).Some? <==> 1 <= number <= |History(versions, name)|
    ensures FindVersion(versions, name, number).Some? ==> FindVersion(versions, name, number).value == History(versions, name)[number - 1]
  {
    HistoryMembers(versions, name);
    var h := History(versions, name);
    if FindVersion(versions, name, number).Some? {
      var v := FindVersion(versions, name, number).value;
      assert v in h;
    }
    if 1 <= number <= |h| {
      var v := h[number - 1];
      assert v in h;
      assert v.name == name && v.number == number;
      var i :| 0 <= i < |versions| && versions[i] == v;
    }
  }

  /** A found version put back is the newest of its name, and only its name gains one. */
  lemma RestoredIsNewest(entries: map<string, Entry>, versions: seq<Version>, name: string, number: int, created: string)
    requires VersionsOk(entries, versions) && FindVersion(versions, name, number).Some?
    ensures var past := FindVersion(versions, name, number).value;
            var h := History(versions, name);
            && 1 <= number <= |h| && past == h[number - 1]
            && History(versions + [NextVersion(versions, name, past.ct, past.meta, created)], name)
               == h + [Version(name, |h| + 1, past.ct, past.meta, created)]
  {
    var past := FindVersion(versions, name, number).value;
    FindVersionExact(versions, name, number);
    HistoryMembers(versions, name);
    assert past in History(versions, name);
    RollbackKeepsVersions(entries, versions, past, created);
  }

  lemma RollbackKeepsVersions(entries: map<string, Entry>, versions: seq<Version>, past: Version, created: string)
    requires VersionsOk(entries, versions)
    ensures var v := NextVersion(versions, past.name, past.ct, past.meta, created);
            && VersionsOk(entries[past.name := Entry(past.ct, past.meta)], versions + [v])
            && forall name: string ::
                 History(versions + [v], name) == History(versions, name) +
                 (if name == past.name then [Version(name, |History(versions, name)| + 1, past.ct, past.meta, created)] else [])
  {
    var v := NextVersion(versions, past.name, past.ct, past.meta, created);
    AppendNextNumbered(versions, v);
    LatestIsCount(versions, past.name);
    HistoriesOfAppend(versions, v);
    NewestAfterAppend(entries, versions, v);
  }

  lemma HistoriesOfAppend(versions: seq<Version>, v: Version)
    ensures forall name: string ::
              History(versions + [v], name) == History(versions, name) + if name == v.name then [v] else []
  {
    forall name: string
      ensures History(versions + [v], name) == History(versions, name) + if name == v.name then [v] else []
    {
      HistoryOfAppend(versions, v, name);
    }
  }

  lemma NewestAfterAppend(entries: map<string, Entry>, versions: seq<Version>, v: Version)
    requires VersionsOk(entries, versions) && forall name: string :: NumberedFromOne(History(versions + [v], name))
    ensures VersionsOk(entries[v.name := Entry(v.ct, v.meta)], versions + [v])
  {
    forall name | name in entries[v.name := Entry(v.ct, v.meta)]
      ensures EntryIsNewest(entries[v.name := Entry(v.ct, v.meta)][name], History(versions + [v], name))
    {
      HistoryOfAppend(versions, v, name);
    }
  }

  lemma OneMoreDistinct(without: seq<PutRow>, row: PutRow)
    requires Distinct(without) && RowOf(without, row.name).None?
    ensures Distinct(without + [row])
    ensures PutEntries(without + [row]) == PutEntries(without)[row.name := Entry(row.ct, row.meta)]
    ensures RowOf(without + [row], row.name) == Some(row)
  {
    var all := without + [row];
    assert all[..|without|] == without;
    forall i, j | 0 <= i < j < |all|
      ensures all[i].name != all[j].name
    {
    }
  }

  /** A put without the name and then a put with it again. */
  lemma GoneAndBack(entries: map<string, Entry>, versions: seq<Version>, without: seq<PutRow>, row: PutRow, created: string)
    requires VersionsOk(entries, versions) && Distinct(without) && RowOf(without, row.name).None?
    ensures var gone, kept := PutEntries(without), PutVersions(entries, versions, without, created);
            var h := History(versions, row.name);
            && row.name !in gone && History(kept, row.name) == h
            && History(PutVersions(gone, kept, without + [row], created), row.name)
               == h + [Version(row.name, |h| + 1, row.ct, row.meta, created)]
  {
    var gone, kept := PutEntries(without), PutVersions(entries, versions, without, created);
    OneMoreDistinct(without, row);
    PutEntriesExact(without, row.name);
    PutHistory(entries, versions, without, created, row.name);
    PutHistory(gone, kept, without + [row], created, row.name);
  }
}
