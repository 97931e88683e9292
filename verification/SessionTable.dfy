/**
 The `sessions` table, keyed by the hash of the bearer token, with a UNIQUE row id. One
 statement per function; what each statement and each login keeps is proved below.
 */
module SessionTable {
  import opened Wrappers

  const CONSOLE := "console"
  const DEVICE := "device"
  const CONSOLE_TTL: int := 12 * 60 * 60
  const DEVICE_TTL: int := 30 * 24 * 60 * 60
  const I64_MAX: int := 0x7fff_ffff_ffff_ffff

  datatype Session = Session(id: string, email: string, kind: string, labelText: string, created: int, lastSeen: int, expires: int)

  type Sessions = map<string, Session>

  /** `now.saturating_add(ttl)` on 64 bits. */
  function Deadline(now: int, ttl: int): int {
    if now + ttl > I64_MAX then I64_MAX else now + ttl
  }

  /** A row passes both keys of the table. */
  predicate Insertable(s: Sessions, hash: string, id: string) {
    hash !in s && forall h :: h in s ==> s[h].id != id
  }

  /** `DELETE FROM sessions WHERE expires <= now`. */
  function Swept(s: Sessions, now: int): Sessions {
    map h | h in s && s[h].expires > now :: s[h]
  }

  /** `DELETE ... WHERE email = ? AND kind = 'console' AND id != keep`. */
  function OthersDropped(s: Sessions, email: string, keep: string): Sessions {
    map h | h in s && !(s[h].email == email && s[h].kind == CONSOLE && s[h].id != keep) :: s[h]
  }

  /** `DELETE FROM sessions WHERE id = ?`. */
  function WithoutId(s: Sessions, id: string): Sessions {
    map h | h in s && s[h].id != id :: s[h]
  }

  function WithoutHash(s: Sessions, hash: string): Sessions {
    map h | h in s && h != hash :: s[h]
  }

  /** The cookie names a console row of this very account, live or not: this path does not sweep. */
  predicate Reusable(s: Sessions, email: string, cookie: Option<string>) {
    cookie.Some? && cookie.value in s && s[cookie.value].email == email && s[cookie.value].kind == CONSOLE
  }

  /**
   `ensure_console`: refresh the row the cookie names, or insert a fresh one under
   (`hash`, `id`); then drop the account's other console rows. None when the insert
   breaks a key, which fails the transaction.
   */
  function ConsoleEnsured(s: Sessions, email: string, cookie: Option<string>, now: int, hash: string, id: string): Option<Sessions> {
    var expires := Deadline(now, CONSOLE_TTL);
    if Reusable(s, email, cookie) then
      var row := s[cookie.value];
      Some(OthersDropped(s[cookie.value := row.(lastSeen := now, expires := expires)], email, row.id))
    else if Insertable(s, hash, id) then
      Some(OthersDropped(s[hash := Session(id, email, CONSOLE, "This browser", now, now, expires)], email, id))
    else
      None
  }

  function Created(s: Sessions, email: string, kind: string, labelText: string, now: int, hash: string, id: string): Option<Sessions> {
    if Insertable(s, hash, id) then
      Some(s[hash := Session(id, email, kind, labelText, now, now, Deadline(now, if kind == CONSOLE then CONSOLE_TTL else DEVICE_TTL))])
    else
      None
  }

  /** `UPDATE sessions SET last_seen = ? WHERE token_hash = ?`. */
  function Touched(s: Sessions, hash: string, now: int): Sessions {
    if hash in s then s[hash := s[hash].(lastSeen := now)] else s
  }

  // ------------------------------------------------------------ what is kept

  ghost predicate IdsUnique(s: Sessions) {
    forall g, h :: g in s && h in s && s[g].id == s[h].id ==> g == h
  }

  ghost predicate OneConsoleEach(s: Sessions) {
    forall g, h :: g in s && h in s && s[g].kind == CONSOLE && s[h].kind == CONSOLE && s[g].email == s[h].email ==> g == h
  }

  ghost predicate SessionsOk(s: Sessions) {
    IdsUnique(s) && OneConsoleEach(s)
  }

  /** Rows of `s` are rows of `t` with at most `last_seen` moved. */
  ghost predicate OnlyFewerOrTouched(s: Sessions, t: Sessions) {
    forall h :: h in s ==> h in t && s[h] == t[h].(lastSeen := s[h].lastSeen)
  }

  lemma FewerKeepsOk(s: Sessions, t: Sessions)
    requires SessionsOk(t) && OnlyFewerOrTouched(s, t)
    ensures SessionsOk(s)
  {
  }

  /** The cookie is that of a console of the account. */
  ghost predicate Owns(s: Sessions, email: string, cookie: Option<string>) {
    exists h :: h in s && cookie == Some(h) && s[h].email == email && s[h].kind == "console"
  }

  /** A login fails exactly when it needs a new row and the new token or the new id is taken. */
  lemma LoginFailsIff(s: Sessions, email: string, cookie: Option<string>, now: int, hash: string, id: string)
    ensures ConsoleEnsured(s, email, cookie, now, hash, id).None? <==>
              !Owns(s, email, cookie) && (hash in s || exists h :: h in s && s[h].id == id)
  {
  }

  /**
   One console login. The account ends with exactly one console row, which is live for the
   full term; device rows and every other account's rows are exactly as before.
   */
  lemma ConsoleLogin(s: Sessions, email: string, cookie: Option<string>, now: int, hash: string, id: string)
    requires IdsUnique(s) && ConsoleEnsured(s, email, cookie, now, hash, id).Some?
    ensures var t := ConsoleEnsured(s, email, cookie, now, hash, id).value;
            var own := if Reusable(s, email, cookie) then cookie.value else hash;
            && IdsUnique(t)
            && (OneConsoleEach(s) ==> OneConsoleEach(t))
            && own in t && t[own].email == email && t[own].kind == CONSOLE && t[own].lastSeen == now
            && t[own].expires == Deadline(now, CONSOLE_TTL)
            && (Owns(s, email, cookie) ==> own == cookie.value && t[own] == s[own].(lastSeen := now, expires := t[own].expires))
            && (!Owns(s, email, cookie) ==> own == hash && hash !in s && t[own] == Session(id, email, CONSOLE, "This browser", now, now, t[own].expires))
            && (forall h :: h in t && t[h].email == email && t[h].kind == CONSOLE ==> h == own)
            && (forall h :: h != own && !(h in s && s[h].email == email && s[h].kind == CONSOLE) ==>
                  (h in t <==> h in s) && (h in t ==> t[h] == s[h]))
  {
    var t := ConsoleEnsured(s, email, cookie, now, hash, id).value;
    var own := if Reusable(s, email, cookie) then cookie.value else hash;
    var row := if Reusable(s, email, cookie)
               then s[own].(lastSeen := now, expires := Deadline(now, CONSOLE_TTL))
               else Session(id, email, CONSOLE, "This browser", now, now, Deadline(now, CONSOLE_TTL));
    assert t == OthersDropped(s[own := row], email, row.id);
    assert IdsUnique(s[own := row]);
  }

  /** What a login hands back opens a session: the row it names is found until its deadline. */
  lemma LoginThenLookup(s: Sessions, email: string, cookie: Option<string>, now: int, hash: string, id: string, later: int)
    requires IdsUnique(s) && ConsoleEnsured(s, email, cookie, now, hash, id).Some?
    ensures var t := ConsoleEnsured(s, email, cookie, now, hash, id).value;
            var own := if Reusable(s, email, cookie) then cookie.value else hash;
            own in Swept(t, later) <==> later < now + 43_200 && later < 0x7fff_ffff_ffff_ffff
  {
    ConsoleLogin(s, email, cookie, now, hash, id);
  }

  /** A row goes in exactly when its token and its id are unused, and then nothing else changes. A console is honoured for twelve hours, a device for thirty days. */
  lemma CreatedIs(s: Sessions, email: string, kind: string, labelText: string, now: int, hash: string, id: string)
    ensures var c := Created(s, email, kind, labelText, now, hash, id);
            && (c.Some? <==> hash !in s && forall h :: h in s ==> s[h].id != id)
            && (c.Some? ==>
                  && c.value.Keys == s.Keys + {hash} && (forall h :: h in s ==> c.value[h] == s[h])
                  && c.value[hash] == Session(id, email, kind, labelText, now, now, c.value[hash].expires)
                  && forall later :: hash in Swept(c.value, later) <==> later < now + (if kind == "console" then 43_200 else 2_592_000) && later < 0x7fff_ffff_ffff_ffff)
  {
  }

  lemma CreateKeepsIds(s: Sessions, email: string, kind: string, labelText: string, now: int, hash: string, id: string)
    requires IdsUnique(s) && Created(s, email, kind, labelText, now, hash, id).Some?
    ensures IdsUnique(Created(s, email, kind, labelText, now, hash, id).value)
    ensures kind != CONSOLE && OneConsoleEach(s) ==> OneConsoleEach(Created(s, email, kind, labelText, now, hash, id).value)
  {
  }
}
