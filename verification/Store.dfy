/**
 The sqlite handle and the stores that share it. Every call into sqlite may succeed, fail
 or panic, as the arbitrary oracle `faults` decides call by call; the claims hold for all
 of them. `committed` is what other callers see, `working` what the open transaction has
 written so far.
 */
module Store {
  import opened Wrappers
  import opened AuditChain
  import opened VaultTables
  import opened SessionTable
  import opened StoreSpec

  datatype Fault = Fine | Err | Panic

  /** How a call ended: with a value, with an error for the caller, or unwinding. */
  datatype Outcome<+T> = Done(value: T) | Failed | Panicked

  function Bad<T>(f: Fault): (o: Outcome<T>)
    ensures !o.Done? && (o.Panicked? <==> f.Panic?)
  {
    if f.Panic? then Panicked else Failed
  }

  /** One row further along a PUT. */
  lemma PutStep(before: map<string, Entry>, versions: seq<Version>, rows: seq<PutRow>, created: string, i: nat)
    requires i < |rows| && Distinct(rows[..i]) && forall n: string :: NumberedFromOne(History(versions, n))
    ensures var sofar := PutVersions(before, versions, rows[..i], created);
            && (forall n: string :: NumberedFromOne(History(sofar, n)))
            && PutVersions(before, versions, rows[..i + 1], created) ==
               if Changes(before, rows[i])
               then sofar + [NextVersion(sofar, rows[i].name, rows[i].ct, rows[i].meta, created)]
               else sofar
  {
    assert rows[..i + 1][..i] == rows[..i];
    PutHistory(before, versions, rows[..i], created, "");
  }

  lemma EntryStep(rows: seq<PutRow>, i: nat)
    requires i < |rows| && Distinct(rows[..i])
    ensures PutEntries(rows[..i + 1]) == PutEntries(rows[..i])[rows[i].name := Entry(rows[i].ct, rows[i].meta)]
    ensures Distinct(rows[..i + 1]) <==> rows[i].name !in PutEntries(rows[..i])
    ensures Distinct(rows) ==> Distinct(rows[..i + 1])
  {
    var next := rows[..i + 1];
    assert next[..i] == rows[..i];
    PutEntriesExact(rows[..i], rows[i].name);
    if Distinct(next) {
      assert forall k :: 0 <= k < i ==> next[k].name != next[i].name;
    }
  }

  /** With unique ids, any row of that id settles whose it is. */
  lemma OwnerOf(s: Sessions, h: string, email: string)
    requires IdsUnique(s) && h in s
    ensures OwnsId(s, email, s[h].id) <==> s[h].email == email
  {
  }

  /** The account's own row of that id is a console. */
  predicate OwnsConsole(s: Sessions, email: string, id: string) {
    exists h :: h in s && s[h].id == id && s[h].email == email && s[h].kind == CONSOLE
  }

  /** With unique ids, any row of that id settles whether it is a console of the account. */
  lemma ConsoleOf(s: Sessions, h: string, email: string)
    requires IdsUnique(s) && h in s
    ensures OwnsConsole(s, email, s[h].id) <==> s[h].email == email && s[h].kind == CONSOLE
  {
  }

  /** The file is as it was, or has gained the line of the newest committed row. */
  ghost predicate OneMore(before: seq<Line>, after: seq<Line>, audit: seq<Row>) {
    after == before || (audit != [] && after == before + [LineOf(audit[|audit| - 1])])
  }

  class Store {
    const env: Env
    const faults: nat -> Fault
    var calls: nat
    var committed: Tables
    var working: Tables
    var inTxn: bool
    /** The jsonl replica, as lines that reached the file. */
    var replica: seq<Line>

    constructor (env: Env, faults: nat -> Fault)
      ensures Valid() && committed == EMPTY && replica == []
      ensures this.env == env && this.faults == faults
    {
      this.env := env;
      this.faults := faults;
      calls := 0;
      committed := EMPTY;
      working := EMPTY;
      inTxn := false;
      replica := [];
    }

    /** No transaction is open: the next caller can BEGIN. */
    ghost predicate Idle()
      reads this
    {
      !inTxn && working == committed
    }

    ghost predicate Valid()
      reads this
    {
      Idle() && StoreOk(env, committed)
    }

    /** Nothing goes wrong from here on. */
    ghost predicate Calm()
      reads this
    {
      forall k :: k >= calls ==> faults(k).Fine?
    }

    // ------------------------------------------------------ the transaction

    method Sql() returns (f: Fault)
      modifies this`calls
      ensures f == faults(old(calls)) && calls == old(calls) + 1
    {
      f := faults(calls);
      calls := calls + 1;
    }

    method Begin() returns (f: Fault)
      requires Idle()
      modifies this`calls, this`working, this`inTxn
      ensures working == committed && inTxn == f.Fine?
      ensures old(Calm()) ==> f.Fine? && Calm()
    {
      f := Sql();
      if f.Fine? {
        inTxn := true;
        working := committed;
      }
    }

    /** ROLLBACK, whose own result the program drops: sqlite leaves the transaction either way. */
    method RollBack()
      requires inTxn
      modifies this`calls, this`working, this`inTxn
      ensures Idle() && calls == old(calls) + 1
    {
      var _ := Sql();
      working := committed;
      inTxn := false;
    }

    /**
     The tail of `immediate` around a body that ended with `body`: COMMIT after a body that
     succeeded, with an armed guard that rolls back on every other way out.
     */
    method Finish(body: Fault) returns (f: Fault)
      requires inTxn
      modifies this`calls, this`committed, this`working, this`inTxn
      ensures Idle()
      ensures committed == if f.Fine? then old(working) else old(committed)
      ensures f.Fine? ==> body.Fine?
      ensures old(Calm()) && body.Fine? ==> f.Fine? && Calm()
    {
      var armed := true;
      f := body;
      if body.Fine? {
        f := Sql();
        if f.Fine? {
          committed := working;
          inTxn := false;
          armed := false;
        } else if f.Err? {
          RollBack();
          armed := false;
        }
      }
      if armed {
        RollBack();
      }
    }

    /** Append to the file after the commit and outside the lock; a miss is swallowed. */
    method Journal(r: Row)
      modifies this`calls, this`replica
      ensures replica == old(replica) || replica == old(replica) + [LineOf(r)]
      ensures old(Calm()) ==> Calm() && replica == old(replica) + [LineOf(r)]
    {
      var f := Sql();
      if f.Fine? {
        replica := replica + [LineOf(r)];
      }
    }

    // ----------------------------------------------------------- statements

    method InsertEntry(name: string, ct: string, meta: string) returns (f: Fault)
      requires inTxn
      modifies this`calls, this`working
      ensures f.Fine? ==> name !in old(working.entries)
      ensures working == if f.Fine? then old(working).(entries := old(working.entries)[name := Entry(ct, meta)]) else old(working)
      ensures old(Calm()) ==> Calm() && (name !in old(working.entries) ==> f.Fine?)
    {
      f := Sql();
      if f.Fine? {
        if name in working.entries {
          f := Err;
        } else {
          working := working.(entries := working.entries[name := Entry(ct, meta)]);
        }
      }
    }

    method InsertVersion(name: string, ct: string, meta: string, created: string) returns (f: Fault)
      requires inTxn
      requires forall n: string :: NumberedFromOne(History(working.versions, n))
      modifies this`calls, this`working
      ensures working == if f.Fine?
                         then old(working).(versions := old(working.versions) + [NextVersion(old(working.versions), name, ct, meta, created)])
                         else old(working)
      ensures old(Calm()) ==> Calm() && f.Fine?
    {
      f := Sql();
      if f.Fine? {
        var v := NextVersion(working.versions, name, ct, meta, created);
        NextKeyFree(working.versions, name);
        if !KeyFree(working.versions, name, v.number) {
          f := Err;
        } else {
          working := working.(versions := working.versions + [v]);
        }
      }
    }

    /** Read the head and insert the next row, both inside the open transaction. */
    method AppendOn(action: string, session: Option<string>, names: seq<string>) returns (f: Fault)
      requires inTxn
      modifies this`calls, this`working
      ensures working == if f.Fine? then Audited(env, old(working), action, session, names) else old(working)
      ensures old(Calm()) ==> Calm() && f.Fine?
    {
      f := Sql();
      if f.Fine? {
        var prev := Head(working.audit);
        f := Sql();
        if f.Fine? {
          var json := env.json(names);
          var hash := EventHash(env.hash, prev, action, session, json);
          working := working.(audit := working.audit + [Row(action, session, json, prev, hash)]);
        }
      }
    }

    // ------------------------------------------------------------ the vault

    method ReplaceEntries(rows: seq<PutRow>, created: string, session: Option<string>) returns (o: Outcome<()>)
      requires Valid()
      modifies this
      ensures Valid()
      ensures OneMore(old(replica), replica, committed.audit) && (o.Done? || replica == old(replica))
      ensures committed == if o.Done? then Apply(env, old(committed), Put(rows, created, session)) else old(committed)
      ensures o.Done? ==> Distinct(rows)
      ensures old(Calm()) && Distinct(rows) ==> o.Done?
    {
      ApplyKeepsOk(env, committed, Put(rows, created, session));
      var f := Begin();
      if f.Fine? {
        f := ReplaceBody(rows, created);
        if f.Fine? {
          f := AppendOn("vault.put", session, NamesOf(rows));
        }
        f := Finish(f);
      }
      if !f.Fine? {
        return Bad(f);
      }
      Journal(committed.audit[|committed.audit| - 1]);
      return Done(());
    }

    method ReplaceBody(rows: seq<PutRow>, created: string) returns (f: Fault)
      requires inTxn && working == committed && StoreOk(env, committed)
      modifies this`calls, this`working
      ensures f.Fine? ==> Distinct(rows)
      ensures f.Fine? ==> working == committed.(entries := PutEntries(rows),
                                                versions := PutVersions(committed.entries, committed.versions, rows, created))
      ensures old(Calm()) ==> Calm() && (Distinct(rows) ==> f.Fine?)
    {
      f := Sql();
      if !f.Fine? { return; }
      var before := working.entries;
      f := Sql();
      if !f.Fine? { return; }
      working := working.(entries := map[]);
      for i := 0 to |rows|
        invariant old(Calm()) ==> Calm()
        invariant f.Fine? && Distinct(rows[..i])
        invariant PartlyPut(rows, created, i)
      {
        f := PutRowBody(before, rows, created, i);
        if !f.Fine? {
          return;
        }
      }
      assert rows[..|rows|] == rows;
    }

    /** The open transaction stands where the PUT loop stands after `i` rows. */
    ghost predicate PartlyPut(rows: seq<PutRow>, created: string, i: nat)
      requires i <= |rows|
      reads this
    {
      working == committed.(entries := PutEntries(rows[..i]),
                            versions := PutVersions(committed.entries, committed.versions, rows[..i], created))
    }

    method PutRowBody(before: map<string, Entry>, rows: seq<PutRow>, created: string, i: nat) returns (f: Fault)
      requires inTxn && StoreOk(env, committed) && before == committed.entries
      requires i < |rows| && Distinct(rows[..i]) && PartlyPut(rows, created, i)
      modifies this`calls, this`working
      ensures f.Fine? ==> Distinct(rows[..i + 1]) && PartlyPut(rows, created, i + 1)
      ensures old(Calm()) ==> Calm() && (Distinct(rows) ==> f.Fine?)
    {
      PutStep(committed.entries, committed.versions, rows, created, i);
      EntryStep(rows, i);
      f := InsertEntry(rows[i].name, rows[i].ct, rows[i].meta);
      if f.Fine? && Changes(before, rows[i]) {
        f := InsertVersion(rows[i].name, rows[i].ct, rows[i].meta, created);
      }
    }

    method RollbackTo(name: string, number: int, created: string, session: Option<string>) returns (o: Outcome<bool>)
      requires Valid()
      modifies this
      ensures Valid()
      ensures OneMore(old(replica), replica, committed.audit) && (o.Done? || replica == old(replica))
      ensures committed == if o.Done? then Apply(env, old(committed), Rollback(name, number, created, session)) else old(committed)
      ensures o.Done? ==> (o.value <==> 1 <= number <= |History(old(committed.versions), name)|)
      ensures old(Calm()) ==> o.Done?
    {
      ghost var op := Rollback(name, number, created, session);
      ApplyKeepsOk(env, committed, op);
      FindVersionExact(committed.versions, name, number);
      var hit := false;
      var f := Begin();
      if f.Fine? {
        f := Sql();
        if f.Fine? {
          var found := FindVersion(working.versions, name, number);
          if found.Some? {
            hit := true;
            var v := found.value;
            f := Sql();
            if f.Fine? {
              working := working.(entries := working.entries[name := Entry(v.ct, v.meta)]);
              f := InsertVersion(name, v.ct, v.meta, created);
              if f.Fine? {
                f := AppendOn("vault.rollback", session, [name]);
              }
            }
          }
        }
        f := Finish(f);
      }
      if !f.Fine? {
        return Bad(f);
      }
      if hit {
        Journal(committed.audit[|committed.audit| - 1]);
      }
      return Done(hit);
    }

    method PutCustomProvider(name: string, value: Provider) returns (o: Outcome<()>)
      requires Valid()
      modifies this
      ensures Valid()
      ensures OneMore(old(replica), replica, committed.audit) && (o.Done? || replica == old(replica))
      ensures committed == if o.Done? then Apply(env, old(committed), PutProvider(name, value)) else old(committed)
      ensures old(Calm()) ==> o.Done?
    {
      ApplyKeepsOk(env, committed, PutProvider(name, value));
      var f := Begin();
      if f.Fine? {
        f := Sql();
        if f.Fine? {
          working := working.(providers := working.providers[name := value]);
          f := AppendOn("provider.put", None, [name]);
        }
        f := Finish(f);
      }
      if !f.Fine? {
        return Bad(f);
      }
      Journal(committed.audit[|committed.audit| - 1]);
      return Done(());
    }

    method DeleteCustomProvider(name: string) returns (o: Outcome<bool>)
      requires Valid()
      modifies this
      ensures Valid()
      ensures OneMore(old(replica), replica, committed.audit) && (o.Done? || replica == old(replica))
      ensures committed == if o.Done? then Apply(env, old(committed), DeleteProvider(name)) else old(committed)
      ensures o.Done? ==> (o.value <==> name in old(committed.providers))
      ensures old(Calm()) ==> o.Done?
    {
      ApplyKeepsOk(env, committed, DeleteProvider(name));
      var hit := false;
      var f := Begin();
      if f.Fine? {
        f := Sql();
        if f.Fine? {
          hit := name in working.providers;
          working := working.(providers := working.providers - {name});
          if hit {
            f := AppendOn("provider.delete", None, [name]);
          }
        }
        f := Finish(f);
      }
      if !f.Fine? {
        return Bad(f);
      }
      if hit {
        Journal(committed.audit[|committed.audit| - 1]);
      }
      return Done(hit);
    }

    method RecordNames(action: string, session: Option<string>, names: seq<string>) returns (o: Outcome<()>)
      requires Valid()
      modifies this
      ensures Valid()
      ensures OneMore(old(replica), replica, committed.audit) && (o.Done? || replica == old(replica))
      ensures committed == if o.Done? then Apply(env, old(committed), Record(action, session, names)) else old(committed)
      ensures old(Calm()) ==> o.Done?
    {
      ApplyKeepsOk(env, committed, Record(action, session, names));
      var f := Begin();
      if f.Fine? {
        f := AppendOn(action, session, names);
        f := Finish(f);
      }
      if !f.Fine? {
        return Bad(f);
      }
      Journal(committed.audit[|committed.audit| - 1]);
      return Done(());
    }

    // --------------------------------------------------------- the sessions

    /** Hands back the token hash the browser now holds: the reused cookie's, or the new one. */
    method ConsoleFor(email: string, cookie: Option<string>, now: int, hash: string, id: string) returns (o: Outcome<string>)
      requires Valid()
      modifies this`calls, this`committed, this`working, this`inTxn
      ensures Valid()
      ensures committed == if o.Done? then Apply(env, old(committed), EnsureConsole(email, cookie, now, hash, id)) else old(committed)
      ensures o.Done? ==> o.value in committed.sessions && committed.sessions[o.value].email == email
                          && committed.sessions[o.value].kind == CONSOLE
      ensures old(Calm()) && Insertable(old(committed.sessions), hash, id) ==> o.Done?
    {
      ghost var op := EnsureConsole(email, cookie, now, hash, id);
      ApplyKeepsOk(env, committed, op);
      if ConsoleEnsured(committed.sessions, email, cookie, now, hash, id).Some? {
        ConsoleLogin(committed.sessions, email, cookie, now, hash, id);
      }
      var f := Begin();
      var held := hash;
      if f.Fine? {
        f, held := ConsoleBody(email, cookie, now, hash, id);
        f := Finish(f);
      }
      if !f.Fine? {
        return Bad(f);
      }
      return Done(held);
    }

    method ConsoleBody(email: string, cookie: Option<string>, now: int, hash: string, id: string) returns (f: Fault, held: string)
      requires inTxn && working == committed
      modifies this`calls, this`working
      ensures f.Fine? ==> ConsoleEnsured(committed.sessions, email, cookie, now, hash, id).Some?
      ensures f.Fine? ==> working == Apply(env, committed, EnsureConsole(email, cookie, now, hash, id))
      ensures held == if Reusable(committed.sessions, email, cookie) && f.Fine? then cookie.value else hash
      ensures old(Calm()) ==> Calm() && (Insertable(committed.sessions, hash, id) ==> f.Fine?)
    {
      held := hash;
      f := Fine;
      var expires := Deadline(now, CONSOLE_TTL);
      if cookie.Some? {
        f := Sql();
        if !f.Fine? { return; }
        if cookie.value in working.sessions {
          var row := working.sessions[cookie.value];
          if row.email == email && row.kind == CONSOLE {
            f := Sql();
            if !f.Fine? { return; }
            working := working.(sessions := working.sessions[cookie.value := row.(lastSeen := now, expires := expires)]);
            f := Sql();
            if !f.Fine? { return; }
            working := working.(sessions := OthersDropped(working.sessions, email, row.id));
            held := cookie.value;
            return;
          }
        }
      }
      f := Sql();
      if !f.Fine? { return; }
      if !Insertable(working.sessions, hash, id) {
        f := Err;
        return;
      }
      working := working.(sessions := working.sessions[hash := Session(id, email, CONSOLE, "This browser", now, now, expires)]);
      f := Sql();
      if !f.Fine? { return; }
      working := working.(sessions := OthersDropped(working.sessions, email, id));
    }

    /** One statement outside any transaction: it takes effect at once or not at all. */
    method Autocommit(next: Sessions) returns (f: Fault)
      requires Idle()
      modifies this`calls, this`committed, this`working
      ensures Idle()
      ensures committed == if f.Fine? then old(committed).(sessions := next) else old(committed)
      ensures old(Calm()) ==> Calm() && f.Fine?
    {
      f := Sql();
      if f.Fine? {
        working := working.(sessions := next);
        committed := working;
      }
    }

    method CreateDeviceSession(email: string, hostname: string, now: int, hash: string, id: string) returns (o: Outcome<()>)
      requires Valid()
      modifies this`calls, this`committed, this`working, this`inTxn
      ensures Valid()
      ensures var name := if hostname == "" then "device" else hostname;
              committed == if o.Done? then Apply(env, old(committed), CreateDevice(email, name, now, hash, id)) else old(committed)
      ensures o.Done? ==> Insertable(old(committed.sessions), hash, id)
      ensures old(Calm()) && Insertable(old(committed.sessions), hash, id) ==> o.Done?
    {
      var name := if hostname == "" then "device" else hostname;
      ApplyKeepsOk(env, committed, CreateDevice(email, name, now, hash, id));
      var next := Created(committed.sessions, email, DEVICE, name, now, hash, id);
      if next.None? {
        var f := Sql();
        return Bad(f);
      }
      var f := Autocommit(next.value);
      return if f.Fine? then Done(()) else Bad(f);
    }

    lemma SweepThenTouch(t: Tables, hash: string, now: int)
      requires StoreOk(env, t)
      ensures StoreOk(env, t.(sessions := Swept(t.sessions, now)))
      ensures StoreOk(env, t.(sessions := Touched(Swept(t.sessions, now), hash, now)))
    {
      ApplyKeepsOk(env, t, Sweep(now));
      ApplyKeepsOk(env, Apply(env, t, Sweep(now)), Touch(hash, now));
    }

    /**
     Sweep, read, touch: three statements, no transaction. A failure between them leaves the
     sweep done. What is handed out was still before its stored deadline.
     */
    method Lookup(hash: string, now: int) returns (o: Outcome<Option<Session>>)
      requires Valid()
      modifies this`calls, this`committed, this`working
      ensures Valid()
      ensures committed in {old(committed), Apply(env, old(committed), Sweep(now)),
                            Apply(env, Apply(env, old(committed), Sweep(now)), Touch(hash, now))}
      ensures o.Done? && o.value.Some? ==>
                hash in old(committed.sessions) && now < old(committed.sessions)[hash].expires
                && o.value.value == old(committed.sessions)[hash].(lastSeen := now)
      ensures (&& old(Calm()) && hash in old(committed.sessions) && now < old(committed.sessions)[hash].expires
               && old(committed.sessions)[hash].kind in {CONSOLE, DEVICE}) ==> o.Done? && o.value.Some?
    {
      SweepThenTouch(committed, hash, now);
      var f := Autocommit(Swept(committed.sessions, now));
      if !f.Fine? {
        return Bad(f);
      }
      f := Sql();
      if !f.Fine? {
        return Bad(f);
      }
      if hash !in committed.sessions || committed.sessions[hash].kind !in {CONSOLE, DEVICE} {
        return Done(None);
      }
      var row := committed.sessions[hash];
      f := Autocommit(Touched(committed.sessions, hash, now));
      return if f.Fine? then Done(Some(row.(lastSeen := now))) else Bad(f);
    }

    /** `Done(None)` is the program's `Unknown`; otherwise whether the revoked row was a console. */
    method Revoke(email: string, id: string) returns (o: Outcome<Option<bool>>)
      requires Valid()
      modifies this
      ensures Valid()
      ensures OneMore(old(replica), replica, committed.audit) && (o.Done? || replica == old(replica))
      ensures committed == if o.Done? then Apply(env, old(committed), RevokeId(email, id)) else old(committed)
      ensures o.Done? ==> (o.value.Some? <==> OwnsId(old(committed.sessions), email, id))
      ensures o.Done? && o.value.Some? ==> (o.value.value <==> OwnsConsole(old(committed.sessions), email, id))
      ensures old(Calm()) ==> o.Done?
    {
      ApplyKeepsOk(env, committed, RevokeId(email, id));
      var answer := None;
      var f := Begin();
      if f.Fine? {
        f, answer := RevokeBody(email, id);
        f := Finish(f);
      }
      if !f.Fine? {
        return Bad(f);
      }
      if answer.Some? {
        Journal(committed.audit[|committed.audit| - 1]);
      }
      return Done(answer);
    }

    method RevokeBody(email: string, id: string) returns (f: Fault, answer: Option<bool>)
      requires inTxn && working == committed && StoreOk(env, committed)
      modifies this`calls, this`working
      ensures f.Fine? ==> working == Apply(env, committed, RevokeId(email, id))
      ensures f.Fine? ==> (answer.Some? <==> OwnsId(committed.sessions, email, id))
      ensures f.Fine? && answer.Some? ==> (answer.value <==> OwnsConsole(committed.sessions, email, id))
      ensures old(Calm()) ==> Calm() && f.Fine?
    {
      answer := None;
      f := Sql();
      if !f.Fine? || !(exists h :: h in working.sessions && working.sessions[h].id == id) {
        return;
      }
      var h :| h in working.sessions && working.sessions[h].id == id;
      OwnerOf(working.sessions, h, email);
      ConsoleOf(working.sessions, h, email);
      if working.sessions[h].email != email {
        return;
      }
      answer := Some(working.sessions[h].kind == CONSOLE);
      f := Sql();
      if f.Fine? {
        working := working.(sessions := WithoutId(working.sessions, id));
        f := AppendOn("session.revoke", Some(id), []);
      }
    }

    method RevokeTokenWithAudit(hash: string, sessionId: string) returns (o: Outcome<()>)
      requires Valid()
      modifies this
      ensures Valid()
      ensures OneMore(old(replica), replica, committed.audit) && (o.Done? || replica == old(replica))
      ensures committed == if o.Done? then Apply(env, old(committed), RevokeToken(hash, sessionId)) else old(committed)
      ensures old(Calm()) ==> o.Done?
    {
      ApplyKeepsOk(env, committed, RevokeToken(hash, sessionId));
      var f := Begin();
      if f.Fine? {
        f := Sql();
        if f.Fine? {
          working := working.(sessions := WithoutHash(working.sessions, hash));
          f := AppendOn("session.revoke", Some(sessionId), []);
        }
        f := Finish(f);
      }
      if !f.Fine? {
        return Bad(f);
      }
      Journal(committed.audit[|committed.audit| - 1]);
      return Done(());
    }
  }
}
