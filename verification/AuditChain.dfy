/**
 The hash-linked audit log: one row per recorded event, each row hashing its own
 fields together with the hash of the row before it, and the line-by-line replica
 of the same events in a text file.

 The digest (hex of SHA-256 in the program) is a parameter `H` throughout. Nothing
 here assumes it injective, which no digest is: a claim about tampering says "or
 these very rows hold a collision", and a collision is a thing one can exhibit.
 */
module AuditChain {
  import opened Wrappers

  type Digest = string -> string

  /** Separates the fields of a hash preimage; byte 0x1f. */
  const US: char := '\U{1f}'

  /** A row of the audit table, in `seq` order. */
  datatype Row = Row(action: string, session: Option<string>, names: string, prev: string, hash: string)

  /** A parsed line of the replica: `prev` and `hash` may be absent from the text. */
  datatype Line = Line(action: string, session: Option<string>, names: string, prev: Option<string>, hash: Option<string>)

  /** Where every chain starts: sixty-four zeros. */
  function Genesis(): string {
    seq(64, _ => '0')
  }

  function Encode(prev: string, action: string, session: Option<string>, names: string): string {
    prev + [US] + action + [US] + session.GetOr("") + [US] + names
  }

  function EventHash(H: Digest, prev: string, action: string, session: Option<string>, names: string): string {
    H(Encode(prev, action, session, names))
  }

  /** What a row's hash is taken over. */
  function Preimage(r: Row): string {
    Encode(r.prev, r.action, r.session, r.names)
  }

  /** The head of the first `n` rows: the genesis, or the hash of the newest of them. */
  function HeadAt(rows: seq<Row>, n: nat): string
    requires n <= |rows|
  {
    if n == 0 then Genesis() else rows[n - 1].hash
  }

  function Head(rows: seq<Row>): string {
    HeadAt(rows, |rows|)
  }

  /** Row `i` names the head before it and hashes its own fields. */
  ghost predicate LinkedAt(H: Digest, rows: seq<Row>, i: nat)
    requires i < |rows|
  {
    rows[i].prev == HeadAt(rows, i) && rows[i].hash == H(Preimage(rows[i]))
  }

  ghost predicate Linked(H: Digest, rows: seq<Row>) {
    forall i :: 0 <= i < |rows| ==> LinkedAt(H, rows, i)
  }

  /** The digest prints as sixty-four characters. */
  ghost predicate Hex64(H: Digest) {
    forall s :: |H(s)| == 64
  }

  /** Separator-free action and session: true of every event the server records. */
  ghost predicate Plain(r: Row) {
    US !in r.action && US !in r.session.GetOr("")
  }

  ghost predicate AllPlain(rows: seq<Row>) {
    forall i :: 0 <= i < |rows| ==> Plain(rows[i])
  }

  /** Among these rows no two preimages collide, and none hashes to the genesis. */
  ghost predicate NoCollision(H: Digest, rows: seq<Row>) {
    && (forall i, j :: 0 <= i < |rows| && 0 <= j < |rows| && H(Preimage(rows[i])) == H(Preimage(rows[j]))
          ==> Preimage(rows[i]) == Preimage(rows[j]))
    && (forall i :: 0 <= i < |rows| ==> H(Preimage(rows[i])) != Genesis())
  }

  /** Equal rows, an absent session and an empty one being the same. */
  ghost predicate SameRow(x: Row, y: Row) {
    x.action == y.action && x.session.GetOr("") == y.session.GetOr("") && x.names == y.names
    && x.prev == y.prev && x.hash == y.hash
  }

  ghost predicate SameRows(xs: seq<Row>, ys: seq<Row>) {
    |xs| == |ys| && forall i :: 0 <= i < |xs| ==> SameRow(xs[i], ys[i])
  }

  // ---------------------------------------------------------------- writing

  /** The row the next event becomes: linked to the head read in the same transaction. */
  function NextRow(H: Digest, rows: seq<Row>, action: string, session: Option<string>, names: string): Row {
    Row(action, session, names, Head(rows), EventHash(H, Head(rows), action, session, names))
  }

  function Append(H: Digest, rows: seq<Row>, action: string, session: Option<string>, names: string): seq<Row> {
    rows + [NextRow(H, rows, action, session, names)]
  }

  lemma AppendLinked(H: Digest, rows: seq<Row>, action: string, session: Option<string>, names: string)
    requires Linked(H, rows)
    ensures Linked(H, Append(H, rows, action, session, names))
  {
    var out := Append(H, rows, action, session, names);
    forall i | 0 <= i < |out|
      ensures LinkedAt(H, out, i)
    {
      assert i < |rows| ==> LinkedAt(H, rows, i);
    }
  }

  // -------------------------------------------------------------- verifying

  /** `verify_rows`: one walk carrying the hash expected next. */
  method VerifyRows(H: Digest, rows: seq<Row>) returns (ok: bool)
    ensures ok <==> Linked(H, rows)
  {
    var prev := Genesis();
    for i := 0 to |rows|
      invariant prev == HeadAt(rows, i)
      invariant forall k :: 0 <= k < i ==> LinkedAt(H, rows, k)
    {
      if rows[i].prev != prev {
        assert !LinkedAt(H, rows, i);
        return false;
      }
      var want := EventHash(H, prev, rows[i].action, rows[i].session, rows[i].names);
      if want != rows[i].hash {
        assert !LinkedAt(H, rows, i);
        return false;
      }
      prev := rows[i].hash;
    }
    return true;
  }

  /** The hash line `i` must be linked to, once every line before it has been accepted. */
  function LineHead(lines: seq<Line>, i: nat): string
    requires i <= |lines|
  {
    if i == 0 then Genesis() else lines[i - 1].hash.GetOr("")
  }

  /** A stored hash that is right for its place, and a stored `prev` only if right. */
  ghost predicate LineOkAt(H: Digest, lines: seq<Line>, i: nat)
    requires i < |lines|
  {
    && lines[i].hash == Some(EventHash(H, LineHead(lines, i), lines[i].action, lines[i].session, lines[i].names))
    && (lines[i].prev.Some? ==> lines[i].prev.value == LineHead(lines, i))
  }

  /** What `verify_jsonl` accepts. */
  ghost predicate ReplicaOk(H: Digest, lines: seq<Line>) {
    forall i :: 0 <= i < |lines| ==> LineOkAt(H, lines, i)
  }

  method VerifyJsonl(H: Digest, lines: seq<Line>) returns (ok: bool)
    ensures ok <==> ReplicaOk(H, lines)
  {
    var prev := Genesis();
    for i := 0 to |lines|
      invariant prev == LineHead(lines, i)
      invariant forall k :: 0 <= k < i ==> LineOkAt(H, lines, k)
    {
      var want := EventHash(H, prev, lines[i].action, lines[i].session, lines[i].names);
      if lines[i].prev.Some? && lines[i].prev.value != prev {
        assert !LineOkAt(H, lines, i);
        return false;
      }
      if lines[i].hash.Some? {
        if lines[i].hash.value != want {
          assert !LineOkAt(H, lines, i);
          return false;
        }
      } else {
        assert !LineOkAt(H, lines, i);
        return false;
      }
      prev := want;
    }
    return true;
  }

  /** What import makes of the names it reads: anything but a list of strings becomes the empty list. */
  function Reread(strings: string -> bool, names: string): string {
    if strings(names) then names else "[]"
  }

  /** Import reads the names of the first `n` lines as `verify_jsonl` does. */
  ghost predicate ReadAlike(strings: string -> bool, lines: seq<Line>, n: nat)
    requires n <= |lines|
  {
    forall k :: 0 <= k < n ==> strings(lines[k].names) || lines[k].names == "[]"
  }

  /** The rows carry the hashes the lines carried. */
  ghost predicate SameHashes(lines: seq<Line>, rows: seq<Row>) {
    |rows| == |lines| && forall i :: 0 <= i < |lines| ==> lines[i].hash == Some(rows[i].hash)
  }

  /** The rows hold what the lines say, as import reads it. */
  ghost predicate Imported(strings: string -> bool, lines: seq<Line>, rows: seq<Row>) {
    |rows| == |lines|
    && forall i :: 0 <= i < |lines| ==>
         rows[i].action == lines[i].action && rows[i].session == lines[i].session
         && rows[i].names == if strings(lines[i].names) then lines[i].names else "[]"
  }

  ghost predicate Collide(H: Digest, x: string, y: string) {
    x != y && H(x) == H(y)
  }

  /** The text line `i` of an accepted replica is hashed over. */
  function LinePreimage(lines: seq<Line>, i: nat): string
    requires i < |lines|
  {
    Encode(LineHead(lines, i), lines[i].action, lines[i].session, lines[i].names)
  }

  /**
   `import_jsonl` into an empty table: the stored hashes are ignored and computed afresh.
   `strings` tells which texts are lists of strings.
   */
  method ImportJsonl(H: Digest, strings: string -> bool, lines: seq<Line>) returns (rows: seq<Row>)
    ensures Linked(H, rows)
    ensures Imported(strings, lines, rows)
  {
    rows := [];
    var prev := Genesis();
    for i := 0 to |lines|
      invariant |rows| == i && prev == Head(rows)
      invariant Linked(H, rows)
      invariant Imported(strings, lines[..i], rows)
    {
      var names := Reread(strings, lines[i].names);
      var hash := EventHash(H, prev, lines[i].action, lines[i].session, names);
      AppendLinked(H, rows, lines[i].action, lines[i].session, names);
      rows := rows + [Row(lines[i].action, lines[i].session, names, prev, hash)];
      prev := hash;
    }
    assert lines[..|lines|] == lines;
  }

  /** As long as the names are read alike, a replica that verifies comes back with the hashes it carried. */
  lemma {:induction false} ImportKeepsHash(H: Digest, strings: string -> bool, lines: seq<Line>, rows: seq<Row>, i: nat)
    requires ReplicaOk(H, lines) && Linked(H, rows) && Imported(strings, lines, rows)
    requires i < |lines| && ReadAlike(strings, lines, i + 1)
    ensures lines[i].hash == Some(rows[i].hash)
  {
    if i > 0 {
      ImportKeepsHash(H, strings, lines, rows, i - 1);
    }
    assert LinkedAt(H, rows, i) && LineOkAt(H, lines, i);
  }

  /**
   Import keeps every hash of a replica that verifies exactly when it reads all its names
   alike, unless the digest collides on a text of the replica.
   */
  lemma ImportKeepsIff(H: Digest, strings: string -> bool, lines: seq<Line>, rows: seq<Row>)
    requires ReplicaOk(H, lines) && Linked(H, rows) && Imported(strings, lines, rows)
    ensures ReadAlike(strings, lines, |lines|) ==> SameHashes(lines, rows)
    ensures SameHashes(lines, rows) ==>
              ReadAlike(strings, lines, |lines|)
              || exists i :: 0 <= i < |lines| && Collide(H, LinePreimage(lines, i), Preimage(rows[i]))
  {
    if ReadAlike(strings, lines, |lines|) {
      forall i | 0 <= i < |lines|
        ensures lines[i].hash == Some(rows[i].hash)
      {
        ImportKeepsHash(H, strings, lines, rows, i);
      }
    } else if SameHashes(lines, rows) {
      var i :| 0 <= i < |lines| && !strings(lines[i].names) && lines[i].names != "[]";
      assert LinkedAt(H, rows, i) && LineOkAt(H, lines, i);
      if i > 0 {
        assert lines[i - 1].hash == Some(rows[i - 1].hash);
      }
      NamesTell(rows[i].prev, rows[i].action, rows[i].session, lines[i].names, rows[i].names);
      assert Collide(H, LinePreimage(lines, i), Preimage(rows[i]));
    }
  }

  /** Over one head, action and session, different names give different texts. */
  lemma NamesTell(prev: string, action: string, session: Option<string>, x: string, y: string)
    requires x != y
    ensures Encode(prev, action, session, x) != Encode(prev, action, session, y)
  {
    var start := prev + [US] + action + [US] + session.GetOr("") + [US];
    assert x == (start + x)[|start|..] && y == (start + y)[|start|..];
  }

  // ------------------------------------------------------- binding the rows

  lemma SplitAtFirst(a: string, x: string, b: string, y: string)
    requires US !in a && US !in b
    requires a + [US] + x == b + [US] + y
    ensures a == b && x == y
  {
    var s, t := a + [US] + x, b + [US] + y;
    assert s[|a|] == US && t[|b|] == US;
    assert forall k :: 0 <= k < |b| ==> t[k] == b[k];
    assert forall k :: 0 <= k < |a| ==> s[k] == a[k];
    assert a == s[..|a|] && b == t[..|b|];
    assert x == s[|a| + 1..] && y == t[|b| + 1..];
  }

  /** Equal preimages over heads of one width agree on the head and on what follows it. */
  lemma SplitHead(p: string, x: string, q: string, y: string)
    requires |p| == |q| && p + [US] + x == q + [US] + y
    ensures p == q && x == y
  {
    var s, t := p + [US] + x, q + [US] + y;
    assert p == s[..|p|] && q == t[..|q|];
    assert x == s[|p| + 1..] && y == t[|q| + 1..];
  }

  function Tail(r: Row): string {
    r.action + [US] + r.session.GetOr("") + [US] + r.names
  }

  lemma PreimageParts(r: Row)
    ensures Preimage(r) == r.prev + [US] + Tail(r)
    ensures Tail(r) == r.action + [US] + (r.session.GetOr("") + [US] + r.names)
  {
  }

  /** The separator encoding loses nothing on rows with separator-free action and session. */
  lemma EncodingInjective(x: Row, y: Row)
    requires Plain(x) && Plain(y) && |x.prev| == |y.prev|
    requires Preimage(x) == Preimage(y)
    ensures x.prev == y.prev && x.action == y.action && x.session.GetOr("") == y.session.GetOr("") && x.names == y.names
  {
    PreimageParts(x);
    PreimageParts(y);
    SplitHead(x.prev, Tail(x), y.prev, Tail(y));
    SplitAtFirst(x.action, x.session.GetOr("") + [US] + x.names, y.action, y.session.GetOr("") + [US] + y.names);
    SplitAtFirst(x.session.GetOr(""), x.names, y.session.GetOr(""), y.names);
  }

  /** A text cut at every separator. */
  function Fields(s: string): (fields: seq<string>)
    ensures fields != []
  {
    if s == "" then [""]
    else
      var rest := Fields(s[1..]);
      if s[0] == '\U{1f}' then [""] + rest else [[s[0]] + rest[0]] + rest[1..]
  }

  lemma {:induction false} FieldsCut(a: string, s: string)
    requires '\U{1f}' !in a
    ensures Fields(a + ['\U{1f}'] + s) == [a] + Fields(s)
  {
    var all := a + ['\U{1f}'] + s;
    if a == "" {
      assert all[1..] == s;
    } else {
      assert all[1..] == a[1..] + ['\U{1f}'] + s;
      FieldsCut(a[1..], s);
      assert a == [a[0]] + a[1..];
    }
  }

  lemma {:induction false} NoCut(s: string)
    requires '\U{1f}' !in s
    ensures Fields(s) == [s]
  {
    if s != "" {
      NoCut(s[1..]);
      assert s == [s[0]] + s[1..];
    }
  }

  /** What a row is hashed over, cut at the byte 0x1f, is its head, its action, its session or nothing, and its names. */
  lemma FieldsOfRow(r: Row)
    requires forall f :: f in [r.prev, r.action, r.session.GetOr(""), r.names] ==> '\U{1f}' !in f
    ensures Fields(Preimage(r)) == [r.prev, r.action, if r.session.Some? then r.session.value else "", r.names]
  {
    var s := r.session.GetOr("");
    PreimageParts(r);
    FieldsCut(r.prev, Tail(r));
    FieldsCut(r.action, s + [US] + r.names);
    FieldsCut(s, r.names);
    NoCut(r.names);
    assert r.prev in [r.prev, r.action, s, r.names] && r.action in [r.prev, r.action, s, r.names];
    assert s in [r.prev, r.action, s, r.names] && r.names in [r.prev, r.action, s, r.names];
  }

  /** Some other row with the same head is hashed over the same text. */
  ghost predicate Ambiguous(r: Row) {
    exists y: Row :: y.prev == r.prev && Preimage(y) == Preimage(r)
      && (y.action, y.session.GetOr(""), y.names) != (r.action, r.session.GetOr(""), r.names)
  }

  /**
   The exact reach of the encoding: it is ambiguous precisely when a separator hides inside
   one of the three fields.
   */
  lemma AmbiguousIffSeparatorInside(r: Row)
    ensures Ambiguous(r) <==> US in r.action || US in r.session.GetOr("") || US in r.names
  {
    if US in r.action || US in r.session.GetOr("") || US in r.names {
      SeparatorIsAmbiguous(r);
    } else {
      forall y: Row | y.prev == r.prev && Preimage(y) == Preimage(r)
        ensures y.action == r.action && y.session.GetOr("") == r.session.GetOr("") && y.names == r.names
      {
        SeparatorFreeIsUnique(r, y);
      }
    }
  }

  lemma SeparatorIsAmbiguous(r: Row)
    requires US in r.action || US in r.session.GetOr("") || US in r.names
    ensures Ambiguous(r)
  {
    if US in r.action {
      InAction(r);
    } else if US in r.session.GetOr("") {
      InSession(r);
    } else {
      InNames(r);
    }
  }

  lemma InAction(r: Row)
    requires US in r.action
    ensures Ambiguous(r)
  {
    var s := r.session.GetOr("");
    var i :| 0 <= i < |r.action| && r.action[i] == US;
    assert r.action == r.action[..i] + [US] + r.action[i + 1..];
    SameText(r, Row(r.action[..i], Some(r.action[i + 1..]), s + [US] + r.names, r.prev, r.hash));
  }

  lemma InSession(r: Row)
    requires US in r.session.GetOr("")
    ensures Ambiguous(r)
  {
    var s := r.session.GetOr("");
    var i :| 0 <= i < |s| && s[i] == US;
    assert s == s[..i] + [US] + s[i + 1..];
    SameText(r, Row(r.action, Some(s[..i]), s[i + 1..] + [US] + r.names, r.prev, r.hash));
  }

  lemma InNames(r: Row)
    requires US in r.names
    ensures Ambiguous(r)
  {
    var s := r.session.GetOr("");
    var i :| 0 <= i < |r.names| && r.names[i] == US;
    assert r.names == r.names[..i] + [US] + r.names[i + 1..];
    SameText(r, Row(r.action, Some(s + [US] + r.names[..i]), r.names[i + 1..], r.prev, r.hash));
  }

  /** `y` cuts the text of `r` at other separators than `r` does. */
  lemma SameText(r: Row, y: Row)
    requires y.prev == r.prev && Tail(y) == Tail(r)
    requires |y.action| != |r.action| || |y.names| != |r.names|
    ensures Ambiguous(r)
  {
    PreimageParts(r);
    PreimageParts(y);
  }

  lemma SeparatorFreeIsUnique(r: Row, y: Row)
    requires y.prev == r.prev && Preimage(y) == Preimage(r)
    requires US !in r.action && US !in r.session.GetOr("") && US !in r.names
    ensures y.action == r.action && y.session.GetOr("") == r.session.GetOr("") && y.names == r.names
  {
    PreimageParts(r);
    PreimageParts(y);
    SplitHead(y.prev, Tail(y), r.prev, Tail(r));
    var s, t := r.session.GetOr(""), y.session.GetOr("");
    // Tail(r) holds exactly two separators, so they are the two that frame y's fields.
    assert Tail(r)[|r.action|] == US && Tail(r)[|r.action| + 1 + |s|] == US;
    assert forall k :: 0 <= k < |Tail(r)| && Tail(r)[k] == US ==> k == |r.action| || k == |r.action| + 1 + |s|;
    assert Tail(y)[|y.action|] == US && Tail(y)[|y.action| + 1 + |t|] == US;
    assert |y.action| == |r.action| && |t| == |s|;
    assert Tail(y)[..|y.action|] == y.action && Tail(r)[..|r.action|] == r.action;
    assert Tail(y)[|y.action| + 1..|y.action| + 1 + |t|] == t && Tail(r)[|r.action| + 1..|r.action| + 1 + |s|] == s;
    assert Tail(y)[|y.action| + 2 + |t|..] == y.names && Tail(r)[|r.action| + 2 + |s|..] == r.names;
  }

  lemma HeadWidth(H: Digest, rows: seq<Row>, n: nat)
    requires Hex64(H) && Linked(H, rows) && n <= |rows|
    ensures |HeadAt(rows, n)| == 64
  {
    assert n > 0 ==> LinkedAt(H, rows, n - 1);
  }

  lemma LinkedPrefix(H: Digest, rows: seq<Row>, n: nat)
    requires Linked(H, rows) && n <= |rows|
    ensures Linked(H, rows[..n])
  {
    forall i | 0 <= i < n
      ensures LinkedAt(H, rows[..n], i)
    {
      assert LinkedAt(H, rows, i);
    }
  }

  /**
   Tamper evidence. Two logs that both verify and show the same head are the same log,
   row by row, or between them they hold a collision of the digest.
   */
  lemma {:induction false} HeadBindsChain(H: Digest, xs: seq<Row>, ys: seq<Row>)
    requires Hex64(H) && Linked(H, xs) && Linked(H, ys) && AllPlain(xs) && AllPlain(ys)
    requires Head(xs) == Head(ys)
    ensures SameRows(xs, ys) || !NoCollision(H, xs + ys)
    decreases |xs| + |ys|
  {
    if NoCollision(H, xs + ys) {
      NeverGenesis(H, xs, ys);
      if xs != [] && ys != [] {
        var m, n := |xs| - 1, |ys| - 1;
        LastRowsAgree(H, xs, ys);
        LinkedPrefix(H, xs, m);
        LinkedPrefix(H, ys, n);
        NoCollisionShrinks(H, xs, ys);
        HeadBindsChain(H, xs[..m], ys[..n]);
        forall i | 0 <= i < |xs|
          ensures SameRow(xs[i], ys[i])
        {
          assert i < m ==> SameRow(xs[..m][i], ys[..n][i]);
        }
      }
    }
  }

  lemma NeverGenesis(H: Digest, xs: seq<Row>, ys: seq<Row>)
    requires Linked(H, xs) && Linked(H, ys) && NoCollision(H, xs + ys)
    ensures forall i :: 0 <= i < |xs| ==> xs[i].hash != Genesis()
    ensures forall i :: 0 <= i < |ys| ==> ys[i].hash != Genesis()
  {
    forall i | 0 <= i < |xs|
      ensures xs[i].hash != Genesis()
    {
      assert LinkedAt(H, xs, i) && (xs + ys)[i] == xs[i];
    }
    forall i | 0 <= i < |ys|
      ensures ys[i].hash != Genesis()
    {
      assert LinkedAt(H, ys, i) && (xs + ys)[|xs| + i] == ys[i];
    }
  }

  lemma LastRowsAgree(H: Digest, xs: seq<Row>, ys: seq<Row>)
    requires Hex64(H) && Linked(H, xs) && Linked(H, ys) && AllPlain(xs) && AllPlain(ys)
    requires xs != [] && ys != [] && Head(xs) == Head(ys) && NoCollision(H, xs + ys)
    ensures SameRow(xs[|xs| - 1], ys[|ys| - 1])
    ensures Head(xs[..|xs| - 1]) == Head(ys[..|ys| - 1])
  {
    var m, n := |xs| - 1, |ys| - 1;
    assert LinkedAt(H, xs, m) && LinkedAt(H, ys, n);
    assert (xs + ys)[m] == xs[m] && (xs + ys)[|xs| + n] == ys[n];
    HeadWidth(H, xs, m);
    HeadWidth(H, ys, n);
    EncodingInjective(xs[m], ys[n]);
  }

  lemma NoCollisionShrinks(H: Digest, xs: seq<Row>, ys: seq<Row>)
    requires xs != [] && ys != [] && NoCollision(H, xs + ys)
    ensures NoCollision(H, xs[..|xs| - 1] + ys[..|ys| - 1])
  {
    var m, n := |xs| - 1, |ys| - 1;
    var small, all := xs[..m] + ys[..n], xs + ys;
    assert forall i :: 0 <= i < |small| ==> small[i] == all[if i < m then i else i + 1];
  }

  // -------------------------------------------------------- the replica law

  /** In a chain that holds no collision every hash is new, and none is the genesis. */
  lemma {:induction false} HashesDistinct(H: Digest, rows: seq<Row>, i: nat, j: nat)
    requires Hex64(H) && Linked(H, rows) && NoCollision(H, rows)
    requires i < j < |rows|
    ensures rows[i].hash != rows[j].hash && rows[i].hash != Genesis() && rows[j].hash != Genesis()
  {
    assert LinkedAt(H, rows, i) && LinkedAt(H, rows, j) && LinkedAt(H, rows, j - 1);
    if rows[i].hash == rows[j].hash {
      HeadWidth(H, rows, i);
      HeadWidth(H, rows, j);
      PreimageParts(rows[i]);
      PreimageParts(rows[j]);
      SplitHead(rows[i].prev, Tail(rows[i]), rows[j].prev, Tail(rows[j]));
      if i > 0 {
        HashesDistinct(H, rows, i - 1, j - 1);
      }
    }
  }

  /** What `journal` writes for a committed row. */
  function LineOf(r: Row): Line {
    Line(r.action, r.session, r.names, Some(r.prev), Some(r.hash))
  }

  /** The whole chain, written in order and without a miss. */
  function Replica(rows: seq<Row>): (lines: seq<Line>)
    ensures |lines| == |rows| && forall i :: 0 <= i < |rows| ==> lines[i] == LineOf(rows[i])
  {
    seq(|rows|, i requires 0 <= i < |rows| => LineOf(rows[i]))
  }

  /** A file made of committed events, in whatever order and with whatever gaps and repeats. */
  function Journalled(rows: seq<Row>, picks: seq<nat>): (lines: seq<Line>)
    requires forall k :: 0 <= k < |picks| ==> picks[k] < |rows|
    ensures |lines| == |picks| && forall k :: 0 <= k < |picks| ==> lines[k] == LineOf(rows[picks[k]])
  {
    seq(|picks|, k requires 0 <= k < |picks| => LineOf(rows[picks[k]]))
  }

  /**
   The replica law. A file of committed events verifies exactly when it is a prefix of the
   chain: gaps, repeats and swaps are all caught, a missing tail is not.
   */
  lemma ReplicaIffPrefix(H: Digest, rows: seq<Row>, picks: seq<nat>)
    requires Hex64(H) && Linked(H, rows) && NoCollision(H, rows)
    requires forall k :: 0 <= k < |picks| ==> picks[k] < |rows|
    ensures ReplicaOk(H, Journalled(rows, picks)) <==> Journalled(rows, picks) <= Replica(rows)
    ensures ReplicaOk(H, Journalled(rows, picks)) <==> forall k :: 0 <= k < |picks| ==> picks[k] == k
  {
    var lines := Journalled(rows, picks);
    if ReplicaOk(H, lines) {
      VerifiedPicks(H, rows, picks, |picks|);
      IdentityBounded(picks, |rows|);
      assert lines == Replica(rows)[..|lines|];
    }
    if lines <= Replica(rows) {
      PrefixVerifies(H, rows, |lines|);
      assert lines == Replica(rows)[..|lines|];
      VerifiedPicks(H, rows, picks, |picks|);
    }
    if forall k :: 0 <= k < |picks| ==> picks[k] == k {
      IdentityBounded(picks, |rows|);
      assert lines == Replica(rows)[..|lines|];
    }
  }

  lemma IdentityBounded(picks: seq<nat>, n: nat)
    requires forall k :: 0 <= k < |picks| ==> picks[k] == k && picks[k] < n
    ensures |picks| <= n
  {
    if picks != [] {
      assert picks[|picks| - 1] < n;
    }
  }

  lemma {:induction false} VerifiedPicks(H: Digest, rows: seq<Row>, picks: seq<nat>, n: nat)
    requires Hex64(H) && Linked(H, rows) && NoCollision(H, rows)
    requires forall k :: 0 <= k < |picks| ==> picks[k] < |rows|
    requires ReplicaOk(H, Journalled(rows, picks)) && n <= |picks|
    ensures forall k :: 0 <= k < n ==> picks[k] == k
  {
    if n > 0 {
      VerifiedPicks(H, rows, picks, n - 1);
      var lines, k := Journalled(rows, picks), n - 1;
      var p := picks[k];
      assert LineOkAt(H, lines, k) && LinkedAt(H, rows, p);
      assert HeadAt(rows, p) == HeadAt(rows, k);
      HeadsDistinct(H, rows, p, k);
    }
  }

  lemma HeadsDistinct(H: Digest, rows: seq<Row>, i: nat, j: nat)
    requires Hex64(H) && Linked(H, rows) && NoCollision(H, rows)
    requires i <= |rows| && j <= |rows| && HeadAt(rows, i) == HeadAt(rows, j)
    ensures i == j
  {
    assert i > 0 ==> LinkedAt(H, rows, i - 1);
    assert j > 0 ==> LinkedAt(H, rows, j - 1);
    if 0 < i < j {
      HashesDistinct(H, rows, i - 1, j - 1);
    } else if 0 < j < i {
      HashesDistinct(H, rows, j - 1, i - 1);
    }
  }

  lemma PrefixVerifies(H: Digest, rows: seq<Row>, n: nat)
    requires Linked(H, rows) && n <= |rows|
    ensures ReplicaOk(H, Replica(rows)[..n])
  {
    var lines := Replica(rows)[..n];
    forall i | 0 <= i < n
      ensures LineOkAt(H, lines, i)
    {
      assert LinkedAt(H, rows, i);
    }
  }
}
