/**
 The whole store as one value, the effect each operation has when it commits, and what
 every run of committing and failing operations keeps.
 */
module StoreSpec {
  import opened Wrappers
  import opened AuditChain
  import opened VaultTables
  import opened SessionTable

  datatype Provider = Provider(title: string, fields: string)

  datatype Tables = Tables(
    entries: map<string, Entry>,
    versions: seq<Version>,
    providers: map<string, Provider>,
    sessions: Sessions,
    audit: seq<Row>)

  /** What the store computes with but does not define: the digest, and a name list as JSON text. */
  datatype Env = Env(hash: Digest, json: seq<string> -> string)

  datatype Op =
    | Put(rows: seq<PutRow>, created: string, session: Option<string>)
    | Rollback(name: string, number: int, created: string, session: Option<string>)
    | PutProvider(provider: string, value: Provider)
    | DeleteProvider(provider: string)
    | Record(action: string, session: Option<string>, names: seq<string>)
    | RevokeId(email: string, id: string)
    | RevokeToken(hash: string, sessionId: string)
    | EnsureConsole(email: string, cookie: Option<string>, now: int, hash: string, id: string)
    | CreateDevice(email: string, labelText: string, now: int, hash: string, id: string)
    | Sweep(now: int)
    | Touch(hash: string, now: int)
    | DropToken(hash: string)

  const EMPTY := Tables(map[], [], map[], map[], [])

  function NamesOf(rows: seq<PutRow>): seq<string> {
    seq(|rows|, i requires 0 <= i < |rows| => rows[i].name)
  }

  function Audited(env: Env, t: Tables, action: string, session: Option<string>, names: seq<string>): Tables {
    t.(audit := Append(env.hash, t.audit, action, session, env.json(names)))
  }

  predicate OwnsId(s: Sessions, email: string, id: string) {
    exists h :: h in s && s[h].id == id && s[h].email == email
  }

  /** The store after `op` has committed. An operation that finds nothing to do commits no change. */
  function Apply(env: Env, t: Tables, op: Op): Tables {
    match op
    case Put(rows, created, session) =>
      if !Distinct(rows) then t else
      Audited(env, t.(entries := PutEntries(rows), versions := PutVersions(t.entries, t.versions, rows, created)),
              "vault.put", session, NamesOf(rows))
    case Rollback(name, number, created, session) =>
      (match FindVersion(t.versions, name, number)
       case None => t
       case Some(v) =>
         Audited(env, t.(entries := t.entries[name := Entry(v.ct, v.meta)],
                         versions := t.versions + [NextVersion(t.versions, name, v.ct, v.meta, created)]),
                 "vault.rollback", session, [name]))
    case PutProvider(name, value) =>
      Audited(env, t.(providers := t.providers[name := value]), "provider.put", None, [name])
    case DeleteProvider(name) =>
      if name !in t.providers then t else
      Audited(env, t.(providers := t.providers - {name}), "provider.delete", None, [name])
    case Record(action, session, names) =>
      Audited(env, t, action, session, names)
    case RevokeId(email, id) =>
      if !OwnsId(t.sessions, email, id) then t else
      Audited(env, t.(sessions := WithoutId(t.sessions, id)), "session.revoke", Some(id), [])
    case RevokeToken(hash, sessionId) =>
      Audited(env, t.(sessions := WithoutHash(t.sessions, hash)), "session.revoke", Some(sessionId), [])
    case EnsureConsole(email, cookie, now, hash, id) =>
      t.(sessions := ConsoleEnsured(t.sessions, email, cookie, now, hash, id).GetOr(t.sessions))
    case CreateDevice(email, labelText, now, hash, id) =>
      t.(sessions := Created(t.sessions, email, DEVICE, labelText, now, hash, id).GetOr(t.sessions))
    case Sweep(now) => t.(sessions := Swept(t.sessions, now))
    case Touch(hash, now) => t.(sessions := Touched(t.sessions, hash, now))
    case DropToken(hash) => t.(sessions := WithoutHash(t.sessions, hash))
  }

  ghost predicate StoreOk(env: Env, t: Tables) {
    && Linked(env.hash, t.audit)
    && VersionsOk(t.entries, t.versions)
    && SessionsOk(t.sessions)
  }

  lemma ApplyKeepsOk(env: Env, t: Tables, op: Op)
    requires StoreOk(env, t)
    ensures StoreOk(env, Apply(env, t, op))
  {
    ApplyKeepsChain(env, t, op);
    ApplyKeepsVersions(env, t, op);
    ApplyKeepsSessions(env, t, op);
  }

  lemma ApplyKeepsChain(env: Env, t: Tables, op: Op)
    requires Linked(env.hash, t.audit)
    ensures Linked(env.hash, Apply(env, t, op).audit)
    ensures t.audit <= Apply(env, t, op).audit && |Apply(env, t, op).audit| <= |t.audit| + 1
  {
    var t' := Apply(env, t, op);
    if t'.audit != t.audit {
      var r := t'.audit[|t.audit|];
      AppendLinked(env.hash, t.audit, r.action, r.session, r.names);
    }
  }

  lemma ApplyKeepsVersions(env: Env, t: Tables, op: Op)
    requires VersionsOk(t.entries, t.versions)
    ensures VersionsOk(Apply(env, t, op).entries, Apply(env, t, op).versions)
    ensures forall name: string :: History(t.versions, name) <= History(Apply(env, t, op).versions, name)
  {
    match op
    case Put(rows, created, _) =>
      if Distinct(rows) {
        PutKeepsVersions(t.entries, t.versions, rows, created);
      }
    case Rollback(name, number, created, _) =>
      var found := FindVersion(t.versions, name, number);
      if found.Some? {
        RollbackKeepsVersions(t.entries, t.versions, found.value, created);
      }
    case _ =>
  }

  lemma ApplyKeepsSessions(env: Env, t: Tables, op: Op)
    requires SessionsOk(t.sessions)
    ensures SessionsOk(Apply(env, t, op).sessions)
  {
    var s := t.sessions;
    match op
    case EnsureConsole(email, cookie, now, hash, id) =>
      if ConsoleEnsured(s, email, cookie, now, hash, id).Some? {
        ConsoleLogin(s, email, cookie, now, hash, id);
      }
    case CreateDevice(email, labelText, now, hash, id) =>
      if Created(s, email, DEVICE, labelText, now, hash, id).Some? {
        CreateKeepsIds(s, email, DEVICE, labelText, now, hash, id);
      }
    case _ =>
      FewerKeepsOk(Apply(env, t, op).sessions, s);
  }

  // ------------------------------------------------------------ audit coupling

  /** The action an operation records, for those that record one. */
  function ActionOf(op: Op): Option<string> {
    match op
    case Put(_, _, _) => Some("vault.put")
    case Rollback(_, _, _, _) => Some("vault.rollback")
    case PutProvider(_, _) => Some("provider.put")
    case DeleteProvider(_) => Some("provider.delete")
    case Record(action, _, _) => Some(action)
    case RevokeId(_, _) => Some("session.revoke")
    case RevokeToken(_, _) => Some("session.revoke")
    case _ => None
  }

  /**
   No change to the vault, to a history or to a provider goes unrecorded, and no record is
   made of nothing: an audited operation commits its effect with exactly one new linked row
   naming it, or changes no table at all; the others leave all of these alone.
   */
  lemma AuditCoupling(env: Env, t: Tables, op: Op)
    ensures var t' := Apply(env, t, op);
            if ActionOf(op).Some? then
              || t' == t
              || (&& |t'.audit| == |t.audit| + 1 && t.audit <= t'.audit
                  && LinkedAt(env.hash, t'.audit, |t.audit|)
                  && t'.audit[|t.audit|].action == ActionOf(op).value)
            else t' == t.(sessions := t'.sessions)
  {
  }

  /** One new row of the log, after the head it was made at. */
  ghost predicate Logs(env: Env, t: Tables, t': Tables, action: string, session: Option<string>, names: seq<string>) {
    var prev := if t.audit == [] then Genesis() else t.audit[|t.audit| - 1].hash;
    t'.audit == t.audit + [Row(action, session, env.json(names), prev, EventHash(env.hash, prev, action, session, env.json(names)))]
  }

  /** `names` are those of the rows, in order. */
  ghost predicate NamesRows(names: seq<string>, rows: seq<PutRow>) {
    |names| == |rows| && forall i :: 0 <= i < |rows| ==> names[i] == rows[i].name
  }

  /** Who did what to which names: the row an operation leaves in the log when it changes anything. */
  lemma WhatIsRecorded(env: Env, t: Tables, op: Op)
    ensures var t' := Apply(env, t, op);
            t'.audit != t.audit ==>
              match op
              case Put(rows, _, session) => exists names :: NamesRows(names, rows) && Logs(env, t, t', "vault.put", session, names)
              case Rollback(name, _, _, session) => Logs(env, t, t', "vault.rollback", session, [name])
              case PutProvider(name, _) => Logs(env, t, t', "provider.put", None, [name])
              case DeleteProvider(name) => Logs(env, t, t', "provider.delete", None, [name])
              case Record(action, session, names) => Logs(env, t, t', action, session, names)
              case RevokeId(_, id) => Logs(env, t, t', "session.revoke", Some(id), [])
              case RevokeToken(_, id) => Logs(env, t, t', "session.revoke", Some(id), [])
              case _ => false
  {
    if op.Put? {
      assert NamesRows(NamesOf(op.rows), op.rows);
    }
  }

  // -------------------------------------------------------------------- runs

  /** One operation of a run, and whether it got as far as COMMIT. */
  datatype Event = Event(op: Op, committed: bool)

  function Run(env: Env, t: Tables, events: seq<Event>): Tables {
    if events == [] then t
    else
      var sofar := Run(env, t, events[..|events| - 1]);
      var last := events[|events| - 1];
      if last.committed then Apply(env, sofar, last.op) else sofar
  }

  /** A run is its events one after another: each that commits has its effect, each that fails has none. */
  lemma {:induction false} RunAppends(env: Env, t: Tables, a: seq<Event>, b: seq<Event>, op: Op)
    ensures Run(env, t, a + b) == Run(env, Run(env, t, a), b)
    ensures Run(env, t, []) == Run(env, t, [Event(op, false)]) == t && Run(env, t, [Event(op, true)]) == Apply(env, t, op)
  {
    if b == [] {
      assert a + b == a;
    } else {
      assert (a + b)[..|a + b| - 1] == a + b[..|b| - 1];
      RunAppends(env, t, a, b[..|b| - 1], op);
    }
  }

  /** In every reachable store the chain verifies, versions are 1..n with the entry on top, and each account has one console. */
  lemma {:induction false} RunKeepsOk(env: Env, events: seq<Event>)
    ensures StoreOk(env, Run(env, EMPTY, events))
  {
    if events != [] {
      RunKeepsOk(env, events[..|events| - 1]);
      ApplyKeepsOk(env, Run(env, EMPTY, events[..|events| - 1]), events[|events| - 1].op);
    }
  }

  /** Nothing recorded is ever rewritten: logs and histories only grow along a run. */
  lemma {:induction false} RunOnlyGrows(env: Env, events: seq<Event>, n: nat)
    requires n <= |events|
    ensures var early, late := Run(env, EMPTY, events[..n]), Run(env, EMPTY, events);
            early.audit <= late.audit && forall name: string :: History(early.versions, name) <= History(late.versions, name)
    decreases |events|
  {
    if n == |events| {
      assert events[..n] == events;
    } else {
      var rest := events[..|events| - 1];
      assert rest[..n] == events[..n];
      RunOnlyGrows(env, rest, n);
      RunKeepsOk(env, rest);
      ApplyKeepsChain(env, Run(env, EMPTY, rest), events[|events| - 1].op);
      ApplyKeepsVersions(env, Run(env, EMPTY, rest), events[|events| - 1].op);
    }
  }

  /** Row ids are UUIDs and recorded actions are the fixed words above: no separator in either. */
  ghost predicate PlainOp(op: Op) {
    match op
    case Put(_, _, session) => US !in session.GetOr("")
    case Rollback(_, _, _, session) => US !in session.GetOr("")
    case Record(action, session, _) => US !in action && US !in session.GetOr("")
    case RevokeId(_, id) => US !in id
    case RevokeToken(_, id) => US !in id
    case _ => true
  }

  lemma {:induction false} RunIsPlain(env: Env, events: seq<Event>)
    requires forall i :: 0 <= i < |events| ==> PlainOp(events[i].op)
    ensures AllPlain(Run(env, EMPTY, events).audit)
  {
    if events != [] {
      var rest := events[..|events| - 1];
      RunIsPlain(env, rest);
      StepIsPlain(env, Run(env, EMPTY, rest), events[|events| - 1].op);
    }
  }

  lemma StepIsPlain(env: Env, t: Tables, op: Op)
    requires AllPlain(t.audit) && PlainOp(op)
    ensures AllPlain(Apply(env, t, op).audit)
  {
    match op
    case Put(rows, _, session) => AuditedIsPlain(env, t, "vault.put", session, NamesOf(rows));
    case Rollback(name, _, _, session) => AuditedIsPlain(env, t, "vault.rollback", session, [name]);
    case PutProvider(name, _) => AuditedIsPlain(env, t, "provider.put", None, [name]);
    case DeleteProvider(name) => AuditedIsPlain(env, t, "provider.delete", None, [name]);
    case Record(action, session, names) => AuditedIsPlain(env, t, action, session, names);
    case RevokeId(_, id) => AuditedIsPlain(env, t, "session.revoke", Some(id), []);
    case RevokeToken(_, id) => AuditedIsPlain(env, t, "session.revoke", Some(id), []);
    case _ =>
  }

  lemma AuditedIsPlain(env: Env, t: Tables, action: string, session: Option<string>, names: seq<string>)
    requires AllPlain(t.audit) && US !in action && US !in session.GetOr("")
    ensures forall t': Tables :: t'.audit == t.audit ==> AllPlain(Audited(env, t', action, session, names).audit)
  {
  }

  /** Two stores, each after any run at all, that show the same audit head recorded the same events. */
  lemma SameHeadSameLog(env: Env, a: seq<Event>, b: seq<Event>)
    requires Hex64(env.hash)
    requires forall i :: 0 <= i < |a| ==> PlainOp(a[i].op)
    requires forall i :: 0 <= i < |b| ==> PlainOp(b[i].op)
    requires Head(Run(env, EMPTY, a).audit) == Head(Run(env, EMPTY, b).audit)
    ensures var x, y := Run(env, EMPTY, a).audit, Run(env, EMPTY, b).audit;
            SameRows(x, y) || !NoCollision(env.hash, x + y)
  {
    RunKeepsOk(env, a);
    RunKeepsOk(env, b);
    RunIsPlain(env, a);
    RunIsPlain(env, b);
    HeadBindsChain(env.hash, Run(env, EMPTY, a).audit, Run(env, EMPTY, b).audit);
  }

  /** No two rows of the PUT have one name. */
  ghost predicate NoneTwice(rows: seq<PutRow>) {
    forall i, j :: 0 <= i < |rows| && 0 <= j < |rows| && rows[i].name == rows[j].name ==> i == j
  }

  /** An operation leaves a row in the log exactly when it finds something to do. */
  lemma RecordedIff(env: Env, t: Tables, op: Op)
    requires StoreOk(env, t)
    ensures Apply(env, t, op).audit != t.audit <==>
              match op
              case Put(rows, _, _) => NoneTwice(rows)
              case Rollback(name, number, _, _) => 1 <= number <= |History(t.versions, name)|
              case DeleteProvider(name) => name in t.providers
              case RevokeId(email, id) => exists h :: h in t.sessions && t.sessions[h].id == id && t.sessions[h].email == email
              case _ => op.PutProvider? || op.Record? || op.RevokeToken?
  {
    if op.Rollback? {
      FindVersionExact(t.versions, op.name, op.number);
    }
  }

  // ------------------------------------------- what single operations undo and leave

  /** A PUT without a name twice leaves exactly its rows, and each name's history gains the row sent if its ciphertext is new. */
  lemma PutReplaces(env: Env, t: Tables, rows: seq<PutRow>, created: string, session: Option<string>, name: string)
    requires StoreOk(env, t) && NoneTwice(rows)
    ensures var t' := Apply(env, t, Put(rows, created, session));
            var h := History(t.versions, name);
            && t'.providers == t.providers && t'.sessions == t.sessions
            && (if i :| 0 <= i < |rows| && rows[i].name == name then
                  && name in t'.entries && t'.entries[name] == Entry(rows[i].ct, rows[i].meta)
                  && History(t'.versions, name)
                     == if name in t.entries && t.entries[name].ct == rows[i].ct then h
                        else h + [Version(name, |h| + 1, rows[i].ct, rows[i].meta, created)]
                else
                  name !in t'.entries && History(t'.versions, name) == h)
  {
    PutEntriesExact(rows, name);
    PutHistory(t.entries, t.versions, rows, created, name);
  }

  /** Storing a provider sets it and leaves the others; deleting one removes it alone. */
  lemma ProvidersAre(env: Env, t: Tables, name: string, value: Provider, other: string)
    ensures var stored, gone := Apply(env, t, PutProvider(name, value)).providers, Apply(env, t, DeleteProvider(name)).providers;
            && (other in stored <==> other == name || other in t.providers)
            && (other in stored ==> stored[other] == if other == name then value else t.providers[other])
            && (other in gone <==> other != name && other in t.providers)
            && (other in gone ==> gone[other] == t.providers[other])
  {
  }

  /** A device row goes in under an unused token and an unused id, for thirty days; nothing else happens. */
  lemma DeviceAdded(env: Env, t: Tables, email: string, labelText: string, now: int, hash: string, id: string)
    ensures var t' := Apply(env, t, CreateDevice(email, labelText, now, hash, id));
            if hash !in t.sessions && forall h :: h in t.sessions ==> t.sessions[h].id != id then
              && hash in t'.sessions
              && t'.sessions[hash] == Session(id, email, "device", labelText, now, now, t'.sessions[hash].expires)
              && (forall later :: hash in Swept(t'.sessions, later) <==> later < now + 2_592_000 && later < 0x7fff_ffff_ffff_ffff)
              && t' == t.(sessions := t.sessions[hash := t'.sessions[hash]])
            else t' == t
  {
    CreatedIs(t.sessions, email, "device", labelText, now, hash, id);
  }

  /** A console login either fails, and changes nothing, or leaves the account one console row, live for twelve hours. */
  lemma ConsoleEnsuredOrNot(env: Env, t: Tables, email: string, cookie: Option<string>, now: int, hash: string, id: string, later: int)
    requires StoreOk(env, t)
    ensures var t' := Apply(env, t, EnsureConsole(email, cookie, now, hash, id));
            if !Owns(t.sessions, email, cookie) && (hash in t.sessions || exists h :: h in t.sessions && t.sessions[h].id == id) then t' == t
            else
              var own := if Owns(t.sessions, email, cookie) then cookie.value else hash;
              && own in t'.sessions && t'.sessions[own].email == email && t'.sessions[own].kind == "console"
              && (forall h :: h in t'.sessions && t'.sessions[h].email == email && t'.sessions[h].kind == "console" ==> h == own)
              && (own in Swept(t'.sessions, later) <==> later < now + 43_200 && later < 0x7fff_ffff_ffff_ffff)
              && t' == t.(sessions := t'.sessions)
  {
    LoginFailsIff(t.sessions, email, cookie, now, hash, id);
    if ConsoleEnsured(t.sessions, email, cookie, now, hash, id).Some? {
      ConsoleLogin(t.sessions, email, cookie, now, hash, id);
      LoginThenLookup(t.sessions, email, cookie, now, hash, id, later);
    }
  }

  /** Rolling back to a version brings back exactly the ciphertext and meta it was stored with, as the newest version. */
  lemma RollbackRestores(env: Env, t: Tables, name: string, number: int, created: string, session: Option<string>)
    requires StoreOk(env, t)
    ensures var t' := Apply(env, t, Rollback(name, number, created, session));
            var h := History(t.versions, name);
            if 1 <= number <= |h| then
              && t'.entries == t.entries[name := Entry(h[number - 1].ct, h[number - 1].meta)]
              && History(t'.versions, name) == h + [Version(name, |h| + 1, h[number - 1].ct, h[number - 1].meta, created)]
            else t' == t
  {
    FindVersionExact(t.versions, name, number);
    if FindVersion(t.versions, name, number).Some? {
      RestoredIsNewest(t.entries, t.versions, name, number, created);
    }
  }

  /** Deleting a name and putting it back, even unchanged, goes on counting: the old history is kept and one version is added. */
  lemma DeleteThenReAdd(env: Env, t: Tables, without: seq<PutRow>, row: PutRow, created: string, session: Option<string>)
    requires StoreOk(env, t) && Distinct(without) && RowOf(without, row.name).None?
    ensures var gone := Apply(env, t, Put(without, created, session));
            var back := Apply(env, gone, Put(without + [row], created, session));
            var h := History(t.versions, row.name);
            && row.name !in gone.entries
            && History(gone.versions, row.name) == h
            && back.entries == gone.entries[row.name := Entry(row.ct, row.meta)]
            && History(back.versions, row.name) == h + [Version(row.name, |h| + 1, row.ct, row.meta, created)]
  {
    OneMoreDistinct(without, row);
    GoneAndBack(t.entries, t.versions, without, row, created);
  }

  /** Only a console login moves a deadline; every other operation keeps the one a row was given. */
  lemma DeadlinesFixed(env: Env, t: Tables, op: Op, hash: string)
    requires hash in t.sessions && hash in Apply(env, t, op).sessions
    ensures Apply(env, t, op).sessions[hash].expires != t.sessions[hash].expires ==>
              && op.EnsureConsole? && op.cookie == Some(hash)
              && t.sessions[hash].email == op.email && t.sessions[hash].kind == CONSOLE
              && Apply(env, t, op).sessions[hash].expires == Deadline(op.now, CONSOLE_TTL)
  {
  }

  // ------------------------------------------------------------ what is revoked

  /** `now` holds just the rows of `was` that are not `out`, as they were. */
  ghost predicate Without(now: Sessions, was: Sessions, out: (string, Session) -> bool) {
    forall h :: (h in now <==> h in was && !out(h, was[h])) && (h in now ==> now[h] == was[h])
  }

  /** Revoking the account's own session of that id leaves no row of that id and every other row; for anybody else it does nothing. */
  lemma RevokedById(env: Env, t: Tables, email: string, id: string)
    ensures var t' := Apply(env, t, RevokeId(email, id));
            if exists h :: h in t.sessions && t.sessions[h].id == id && t.sessions[h].email == email
            then Without(t'.sessions, t.sessions, (h, row: Session) => row.id == id)
            else t' == t
  {
  }

  lemma RevokedByToken(env: Env, t: Tables, hash: string, id: string)
    ensures Without(Apply(env, t, RevokeToken(hash, id)).sessions, t.sessions, (h, row) => h == hash)
    ensures Without(Apply(env, t, DropToken(hash)).sessions, t.sessions, (h, row) => h == hash)
  {
  }

  /** A sweep removes exactly what is overdue; a touch moves only the row's own time. */
  lemma SweptAndTouched(env: Env, t: Tables, now: int, hash: string)
    ensures Without(Apply(env, t, Sweep(now)).sessions, t.sessions, (h, row: Session) => row.expires <= now)
    ensures var s, s' := t.sessions, Apply(env, t, Touch(hash, now)).sessions;
            s'.Keys == s.Keys && forall h :: h in s ==> s'[h] == if h == hash then s[h].(lastSeen := now) else s[h]
  {
  }

  /** A row under this hash is inserted. */
  predicate Inserts(op: Op, hash: string) {
    (op.EnsureConsole? || op.CreateDevice?) && op.hash == hash
  }

  /** A hash that is not in the table, revoked or never there, stays out of it until an operation inserts it. */
  lemma {:induction false} StaysOut(env: Env, t: Tables, events: seq<Event>, hash: string)
    requires hash !in t.sessions && forall i :: 0 <= i < |events| ==> !Inserts(events[i].op, hash)
    ensures hash !in Run(env, t, events).sessions
  {
    if events != [] {
      StaysOut(env, t, events[..|events| - 1], hash);
    }
  }

  /** So a session revoked by its owner opens nothing any more, whatever happens next short of a new login under its token. */
  lemma RevokedForGood(env: Env, t: Tables, h: string, events: seq<Event>)
    requires h in t.sessions && forall i :: 0 <= i < |events| ==> !Inserts(events[i].op, h)
    ensures h !in Run(env, Apply(env, t, RevokeId(t.sessions[h].email, t.sessions[h].id)), events).sessions
  {
    RevokedById(env, t, t.sessions[h].email, t.sessions[h].id);
    StaysOut(env, Apply(env, t, RevokeId(t.sessions[h].email, t.sessions[h].id)), events, h);
  }
}
