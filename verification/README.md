# A verified model of the secrets manager

This project models, in Dafny, the parts of the secrets manager that other parts rely on: the
server's vault store with its version history, transactions and audit chain; the save protocol
between many clients and that store; the terminal register that asks for saves; the key holder
that browser tabs share; and the stand-alone algorithms around them. It states and proves what
those parts promise. `dafny verify dfyconfig.toml` checks everything.

## How it is put together

- `AuditChain`, `Sha256`, `Sha256Example`, `Byte8`, `Utf8`, `EventDigest`: the hash-linked audit log
  and its text replica over a digest that is a parameter, the program's own SHA-256 loops against
  FIPS 180-4, that definition worked through on the example published with the standard, and chain
  and digest put together. No digest is injective, so nothing assumes one: a claim about
  tampering ends in "or these rows hold a collision".
- `VaultTables`, `SessionTable`, `StoreSpec`, `Store`: the tables, what each operation does to
  them, and a class whose methods run the statements one by one against an oracle that may make
  any statement, BEGIN, COMMIT or write to the replica fail or panic. Every method says that the
  committed tables are the operation's full effect or are unchanged; runs of operations then
  inherit the invariants of the specification.
- `SaveProtocol`: N clients and console wizards interleaved against a server map. Ciphertexts are
  handles into a book of what was sealed, so sealing the same text twice gives two ciphertexts.
- `Register`, `Shapes`, `Index`, `PayloadJson`: the register whose maps must stay in step, the
  grouping of entries into credentials, the rows on screen, and the JSON a credential is stored as
  with a parser for the grammar of RFC 8259.
- `KeyHolder`: the shared worker, its ports as queues, the timer and the lazy expiry. The clock
  may move on between any two readings.
- `Redact`, `Groups`, `Base64`, `Base64Stream`, `RateLimit`, `Handles`, `DeviceFlow`: one module each.

Code that changes things in place is a class or an array method proved against a specification
function; the theorems are about those functions and about runs of them.

## What the proofs found

- The save protocol (`src/policy.rs:572-589`) loses an update silently exactly when it lands between
  the look and the PUT of a write that is itself kept: being written over by a write that is lost in
  turn costs nothing (`LostExactly`). No update is ever lost exactly when no window holds a write
  (`NothingLostIff`). `BothSavedOneLost` is a run in which both clients are told that they saved and
  one entry is gone. The comparison ignores meta altogether, and a read-back misses a later write only
  when the vault is empty or a restore has put back what was sent (`RestoreUnseen`).
- `import_jsonl` (`crates/secd-web/src/audit.rs:132-179`) hashes the imported lines anew, so a log
  whose old hashes did not verify does verify after the import. It also reads names that are no list
  of strings as an empty list, which `verify_jsonl` does not: only then does a replica that verified
  come back with other hashes, short of a collision.
- The text an audit row is hashed over (`crates/secd-web/src/audit.rs:244-263`) is ambiguous exactly
  when a field holds its separator. Recorded actions and session ids never do, and the names come
  last, so the chain is bound by its head all the same.
- The rows of the register (`src/tui/tree.rs:75-161`) partition the vault under a weaker condition
  than "no stored name is the parent of a fused group": such a name is harmless when another group
  claims it, and breaks the partition otherwise.
- Redaction (`crates/secd-core/src/redact.rs:4-14`) is complete, over values that do not straddle an end
  of `[redacted]`, exactly when no value is inside it; over values without brackets, exactly when none
  is spelled inside the word `redacted` itself.
- A key holder request from a tab that has gone (`ui/src/keyholder.worker.ts:50-54`) throws at the
  reply, and the broadcast after it is skipped. It misleads the other tabs in two ways. They take the
  key for gone exactly when the request set it while none was held. And they deny it too early
  exactly when the request set it at all and one of them still counts to an earlier deadline. The next
  request of a live tab puts both right. `GoneTabMisleads` and `GoneTabHastens` are such runs, and `Run`
  says that over any events nothing else misleads anybody.
- The rate limiter (`crates/secd-web/src/auth.rs:259-269`) reads the clock before it takes the
  lock. A call is admitted exactly when fewer than ten recent admissions of its address are still
  remembered, and one is forgotten once a later reading of that address met it a minute on. So past
  ten recent admissions a call gets in exactly when enough of them were forgotten that way, which
  readings in lock order exclude; `OutOfOrder` is a run in which eleven admissions fall within a minute.
- A device poll (`crates/secd-web/src/device.rs:138-148`) has an answer "expired" that it never
  gives, because the sweep before it reads the clock later and removes the flow.
- The register's `commit` (`src/tui/model.rs:959-988`) sends the first of two writes to one name and
  keeps the last. The two are the same exactly when the first and the last write of each name say the
  same. The forms keep to that, even for a schema that repeats a key, because a value is looked up by
  its key.
- Editing a credential stored as siblings under its own name (`src/tui/model.rs:859-882`) may write
  over an entry that is no part of it: exactly when a field of the form is named like an entry stored
  beside the group, a bundle say. Only renames are checked for that. So may adding a credential under
  a stored name.
- `group_names` (`crates/secd-core/src/group.rs:10-103`) keeps its first two rules to the letter, and the
  third with one exception. A free `init-X` with `X/` beside it ends in the set `X` exactly when no
  earlier free `init-init-X` with `init-X/` beside it took it along. In the list `init-init-a`, `init-a`,
  `a/k`, `init-a/z` it did, and `a/k`, which the rule would put in a set, stays loose.

The documentation of the save protocol says that the read-back turns a clobber from silent into an
error. That holds for a write between the PUT and the read-back. It does not hold for one between
the check and the PUT, which the same comment admits, and the model follows the code.

## Model

| member | source | states |
|---|---|---|
| AuditChain.VerifyRows | crates/secd-web/src/audit.rs:181-194 | answers true exactly when every row names the head before it and carries the hash of its own fields |
| AuditChain.VerifyJsonl | crates/secd-web/src/audit.rs:196-242 | answers true exactly when every line carries the hash of its own fields over the head before it, and the `prev` of that head or none; a missing `hash` fails, a missing `prev` does not |
| AuditChain.ImportJsonl | crates/secd-web/src/audit.rs:132-179 | the imported rows always verify, whatever hashes the lines carried; names that are no list of strings become the empty list |
| AuditChain.ImportKeepsIff | crates/secd-web/src/audit.rs:132-179 | a replica that verified keeps its hashes exactly when import reads all its names as `verify_jsonl` does, or the digest collides on a text of the replica |
| AuditChain.AppendLinked | crates/secd-web/src/audit.rs:265-286 | appending an event keeps the chain linked |
| AuditChain.FieldsOfRow | crates/secd-web/src/audit.rs:244-263 | the text hashed, cut at the byte 0x1f, is the head, the action, the session or nothing, and the names |
| AuditChain.EncodingInjective | crates/secd-web/src/audit.rs:244-263 | with an equal-width previous hash and no separator in action or session, the hashed text determines every field |
| AuditChain.AmbiguousIffSeparatorInside | crates/secd-web/src/audit.rs:244-263 | a hashed text has two readings exactly when a field holds the byte 0x1f |
| AuditChain.SeparatorFreeIsUnique | crates/secd-web/src/audit.rs:244-263 | a row without the separator shares its hashed text with no other row, whatever the other row holds |
| AuditChain.HeadBindsChain | crates/secd-web/src/audit.rs:181-194 | two verified logs with equal heads are equal row by row (no session and an empty one being the same), or their own rows hold a collision or a preimage of the genesis |
| AuditChain.HashesDistinct | crates/secd-web/src/audit.rs:181-194 | in a verified log without a collision no hash repeats and none is the genesis |
| AuditChain.ReplicaIffPrefix | crates/secd-web/src/audit.rs:93-107 | a replica made of committed events verifies exactly when it is a prefix of the chain: every gap, repeat or reordering is found, a missing tail is not |
| AuditChain.PrefixVerifies | crates/secd-web/src/audit.rs:196-242 | every prefix of the chain verifies as a replica, with no assumption on the hash |
| Sha256.FillIsSmallest | crates/secd-web/src/audit.rs:416-419 | the zero bytes pushed are the smallest number of zero bits of section 5.1.1 |
| Sha256.AddPadding | crates/secd-web/src/audit.rs:414-420 | the push loop builds the padding of section 5.1.1 for inputs of every length |
| Sha256.PadLength | crates/secd-web/src/audit.rs:414-420 | the padded length is a multiple of 64 and is the input, one byte, the zeros and eight bytes |
| Sha256.PadInjective | crates/secd-web/src/audit.rs:414-420 | no two inputs, however long, are padded to the same blocks |
| Sha256.PadStrips | crates/secd-web/src/audit.rs:414-420 | the padding comes off at every length: eight bytes, then the zeros, then 0x80 |
| Sha256.UnpadIff | crates/secd-web/src/audit.rs:414-420 | reading the length field gives the input back exactly below 2^61 bytes, where the bit length stops fitting |
| Sha256.LengthSaid | crates/secd-web/src/audit.rs:414-420 | the last eight bytes say the length in bits, or the largest number they can |
| Sha256.RotateIsTwoShifts | crates/secd-web/src/audit.rs:432-455 | each rotation used is the pair of shifts of section 3.2 |
| Sha256.CubeRoots0 | crates/secd-web/src/audit.rs:399-401 | the first sixteen round constants are the first 32 fractional bits of the cube roots of the primes 2 to 53 |
| Sha256.CubeRoots16 | crates/secd-web/src/audit.rs:401-403 | the next sixteen, for the primes 59 to 131 |
| Sha256.CubeRoots32 | crates/secd-web/src/audit.rs:403-405 | the next sixteen, for the primes 137 to 223 |
| Sha256.CubeRoots48 | crates/secd-web/src/audit.rs:405-408 | the last sixteen, for the primes 227 to 311 |
| Sha256.H0FromSquareRoots | crates/secd-web/src/audit.rs:410-413 | the initial hash value comes from the square roots of the first eight primes |
| Sha256.NextWord | crates/secd-web/src/audit.rs:431-438 | one word of the message schedule, the sum taken in the order of the program |
| Sha256.Schedule | crates/secd-web/src/audit.rs:431-438 | the array `w` holds the message schedule of section 6.2.2 |
| Sha256.Shuffle | crates/secd-web/src/audit.rs:439-466 | the eight variables end as the sixty-four rounds leave them |
| Sha256.OneBlock | crates/secd-web/src/audit.rs:421-475 | one pass over a block leaves in `h` the compression of section 6.2.2 |
| Sha256.WriteOut | crates/secd-web/src/audit.rs:476-479 | the words are written out big-endian |
| Sha256.BytesMakeWord | crates/secd-web/src/audit.rs:423-430 | four bytes written big-endian read back as the same word |
| Sha256.Sha256 | crates/secd-web/src/audit.rs:397-481 | the loops return the hash of FIPS 180-4 for every input shorter than 2^61 bytes, where the standard stops, and beyond that the same with the length saturated |
| Sha256Example.Published | crates/secd-web/src/audit.rs:397-481 | the one-block example of FIPS 180-2, appendix B.1: of `abc` the definition gives the digest printed there |
| Sha256Example.FlatAt | crates/secd-web/src/audit.rs:476-479 | four bytes of the digest are one word, the most significant first |
| EventDigest.DigestIsHex64 | crates/secd-web/src/audit.rs:244-263 | the digest used is sixty-four characters, as the chain needs |
| EventDigest.HexReads | crates/secd-web/src/audit.rs:244-263 | each byte is printed as two lower-case hex digits, the high one first |
| Utf8.CodeSays | crates/secd-web/src/audit.rs:249-260 | each character is hashed as the bytes of RFC 3629, section 3: read by their bit patterns they say its number, in the fewest bytes |
| EventDigest.HexUnique | crates/secd-web/src/audit.rs:244-263 | hex text determines the bytes |
| EventDigest.Utf8Unique | crates/secd-web/src/audit.rs:244-263 | UTF-8 bytes determine the text |
| EventDigest.HeadBindsUnlessBroken | crates/secd-web/src/audit.rs:181-194 | with the real digest, two verified logs with one head are the same log, or two of their rows collide under SHA-256, or one hashes to all zeros |
| VaultTables.PutHistory | crates/secd-web/src/vault.rs:93-159 | a put extends a name's history by one version, numbered next and holding the row, exactly when the name was not stored or its ciphertext was another, and touches no other history |
| VaultTables.ResendAddsNothing | crates/secd-web/src/vault.rs:107-145 | a put that sends the stored ciphertexts again, under whatever metas, adds no version |
| VaultTables.PutEntriesExact | crates/secd-web/src/vault.rs:120-145 | after a put the entries are exactly the rows sent |
| VaultTables.PutKeepsVersions | crates/secd-web/src/vault.rs:93-159 | numbers stay 1..n per name, every entry keeps a newest version with its ciphertext, old histories stay prefixes |
| VaultTables.LatestIsCount | crates/secd-web/src/vault.rs:123-126 | `MAX(seq)` of a name is how many versions it has |
| VaultTables.NextKeyFree | crates/secd-web/src/vault.rs:123-126 | the next number is never a used primary key |
| VaultTables.FindVersionExact | crates/secd-web/src/vault.rs:199-209 | a version is found exactly when its number is between 1 and the count, and is the one of that place |
| VaultTables.RollbackKeepsVersions | crates/secd-web/src/vault.rs:189-239 | a rollback adds one version to its own name and keeps the version invariant |
| VaultTables.RestoredIsNewest | crates/secd-web/src/vault.rs:199-235 | the version put back is the newest of its name |
| VaultTables.GoneAndBack | crates/secd-web/src/vault.rs:93-159 | a name deleted by one put and sent by the next goes on counting |
| SessionTable.ConsoleLogin | crates/secd-web/src/sessions.rs:87-157 | after a console login the account has one console row, the cookie's own refreshed or a fresh one, and no device row and no other account's row has changed |
| SessionTable.LoginFailsIff | crates/secd-web/src/sessions.rs:87-157 | it fails exactly when it needs a new row and the token or the id is taken |
| SessionTable.LoginThenLookup | crates/secd-web/src/sessions.rs:87-157 | a login is honoured strictly for twelve hours, even when the row it reused had expired |
| SessionTable.CreateKeepsIds | crates/secd-web/src/sessions.rs:168-197 | a device row keeps ids unique and the one-console rule |
| SessionTable.CreatedIs | crates/secd-web/src/sessions.rs:168-197 | a row goes in exactly when its token and id are unused, for twelve hours or, as a device, thirty days, and nothing else changes |
| SessionTable.FewerKeepsOk | crates/secd-web/src/sessions.rs:388-392 | sweeping, dropping and touching rows keep both rules |
| StoreSpec.ApplyKeepsOk | crates/secd-web/src/audit.rs:265-286 | every operation keeps chain, versions and sessions in order |
| StoreSpec.ApplyKeepsVersions | crates/secd-web/src/vault.rs:93-245 | every operation keeps the version invariant and extends every history |
| StoreSpec.AuditCoupling | crates/secd-web/src/audit.rs:265-286 | an audited operation either changes no table or adds exactly one linked row of its own action; the others touch sessions only |
| StoreSpec.WhatIsRecorded | crates/secd-web/src/audit.rs:265-286 | the new row names the action, the session and the names of its operation, in order, after the head it was made at |
| StoreSpec.RecordedIff | crates/secd-web/src/audit.rs:265-286 | a row is left exactly when there is something to do: no name twice, a version of that number, a provider stored, a session the account owns |
| StoreSpec.PutReplaces | crates/secd-web/src/vault.rs:93-159 | a PUT leaves exactly its rows, and a name gains a version exactly when its ciphertext is new |
| StoreSpec.ProvidersAre | crates/secd-web/src/vault.rs:272-320 | storing a provider sets it and leaves the others, deleting one removes it alone |
| StoreSpec.DeviceAdded | crates/secd-web/src/sessions.rs:159-203 | a device row goes in under an unused token and id, for thirty days, and nothing else happens |
| StoreSpec.ConsoleEnsuredOrNot | crates/secd-web/src/sessions.rs:87-157 | a console login fails and changes nothing, or leaves the account one console row, live for twelve hours |
| StoreSpec.RevokedById | crates/secd-web/src/sessions.rs:307-346 | revoking the account's own session leaves no row of that id and every other row as it was; anybody else's is left alone |
| StoreSpec.RevokedByToken | crates/secd-web/src/sessions.rs:348-378 | revoking a token removes its row and no other |
| StoreSpec.RevokedForGood | crates/secd-web/src/sessions.rs:205-244 | a revoked token stays out of the table, so that no lookup finds it, until an operation inserts it anew |
| StoreSpec.SweptAndTouched | crates/secd-web/src/sessions.rs:388-392 | a sweep removes exactly what is overdue, a touch moves only the row's own last use |
| StoreSpec.RunKeepsOk | crates/secd-web/src/audit.rs:113-118 | in every state a run from the empty store reaches, the chain verifies, versions are numbered 1..n, sessions are in order |
| StoreSpec.RunAppends | crates/secd-web/src/db.rs:134-152 | a run is its events in order: each that commits has its effect, each that fails has none |
| StoreSpec.RunOnlyGrows | crates/secd-web/src/vault.rs:93-245 | over any run the audit log and every history only grow at the end |
| StoreSpec.SameHeadSameLog | crates/secd-web/src/audit.rs:181-194 | two stores after any two runs that show the same head recorded the same events, or exhibit a collision |
| StoreSpec.RollbackRestores | crates/secd-web/src/vault.rs:189-245 | rolling back restores exactly the old ciphertext and meta as the newest version; an unknown number changes nothing |
| StoreSpec.DeleteThenReAdd | crates/secd-web/src/vault.rs:93-159 | deleting and re-adding a name keeps its history and adds one version |
| StoreSpec.DeadlinesFixed | crates/secd-web/src/sessions.rs:87-157 | only a console login with its own cookie moves a deadline |
| Store.Store.Finish | crates/secd-web/src/db.rs:134-152 | commit takes the working tables or nothing, for an error or panic in the body or at COMMIT, and never leaves a transaction open |
| Store.Store.Begin | crates/secd-web/src/db.rs:134-152 | BEGIN IMMEDIATE starts from the committed tables |
| Store.Store.Journal | crates/secd-web/src/audit.rs:93-107 | the replica gains one whole line or none |
| Store.Store.AppendOn | crates/secd-web/src/audit.rs:265-286 | the audit row is linked to the head read in the same transaction |
| Store.Store.ReplaceEntries | crates/secd-web/src/vault.rs:93-159 | a put commits whole with its audit row or changes no table, whichever statement fails |
| Store.Store.RollbackTo | crates/secd-web/src/vault.rs:189-245 | the same for a rollback; the answer says whether the version existed |
| Store.Store.PutCustomProvider | crates/secd-web/src/vault.rs:272-292 | the same for storing a provider |
| Store.Store.DeleteCustomProvider | crates/secd-web/src/vault.rs:294-320 | the same for deleting one; the answer says whether it was there |
| Store.Store.RecordNames | crates/secd-web/src/audit.rs:76-91 | the same for a bare audit event |
| Store.Store.ConsoleFor | crates/secd-web/src/sessions.rs:87-157 | a console login is all or nothing and hands out a row it left in the table |
| Store.Store.CreateDeviceSession | crates/secd-web/src/sessions.rs:159-197 | a device session is inserted or not at all |
| Store.Store.Lookup | crates/secd-web/src/sessions.rs:205-244 | a session is handed out only before its stored deadline; a failure leaves at most the sweep done |
| Store.Store.Revoke | crates/secd-web/src/sessions.rs:307-346 | revoking by id is atomic with its audit row and only touches the account's own session; the answer says whether there was one and whether it was a console |
| Store.Store.RevokeTokenWithAudit | crates/secd-web/src/sessions.rs:358-378 | so is revoking by token |
| SaveProtocol.VaultIsLog | src/policy.rs:572-647 | after any interleaving the vault opens to the newest write on top of what its author saw |
| SaveProtocol.CleanRunIsSerial | src/policy.rs:564-589 | with no write between a saver's check and its PUT, the run is the edits applied one after another |
| SaveProtocol.LostExactly | src/policy.rs:572-589 | a write is out of the vault exactly when it lay between the look and the PUT of a write that is itself still in |
| SaveProtocol.NothingLostIff | src/policy.rs:572-589 | every write stays in exactly when no write lies in any window between a look and its PUT |
| SaveProtocol.ViewIsLineage | src/policy.rs:572-589 | what the vault opens to is the writes still in it, applied one after another |
| SaveProtocol.VaultSays | src/policy.rs:564-589 | in every run each name says what the newest write still in that names it says, or what it said at the start |
| SaveProtocol.EditStands | src/policy.rs:564-589 | in every run an edit stands at a name as long as no later write was made from a look before it or names it |
| SaveProtocol.LostIff | src/policy.rs:572-589 | in every run a PUT gives what applying its edit to the vault it lands on would give exactly when the vault it was made from and the one it lands on agree at every name it neither writes nor drops |
| SaveProtocol.OnlyPutsWrite | src/policy.rs:572-589 | a remark: only PUTs and restores change the vault, and a check that fails leaves it untouched |
| SaveProtocol.LoadEnds | src/policy.rs:514-562 | a load is open to whoever has not begun, has loaded or has failed, and holds what the vault opens to |
| SaveProtocol.CheckEnds | src/policy.rs:580-583 | in every run a check passes exactly when it shows the map that was loaded, and fails otherwise |
| SaveProtocol.PutEnds | src/policy.rs:622-647 | a PUT leaves the vault opening to the edit on what its author saw, sealed afresh throughout, answered or not |
| SaveProtocol.ReadBackEnds | src/policy.rs:584-589 | in every run a read-back succeeds exactly when it shows the map that was sent, and then the vault opens to what the saver wanted |
| SaveProtocol.AnswerMayFail | src/policy.rs:580-584 | a check, a look of the wizard or a read-back may go unanswered, and the client then fails with nothing changed |
| SaveProtocol.ReadBackTells | src/policy.rs:584-589 | success means that nobody has written since, that the vault is empty or that a restore came since; with no restore since it fails exactly when a write landed since and not both maps are empty |
| SaveProtocol.WizardReadBackEnds | ui/src/screens/vault.ts:1397-1409 | the wizard's read-back is done exactly when its name shows the ciphertext written, and then the vault opens there to what was sealed |
| SaveProtocol.WizardWrites | ui/src/screens/vault.ts:1359-1385 | the wizard seals its one entry, reads the whole vault, and puts it back with that entry |
| SaveProtocol.WizardClobbered | ui/src/screens/vault.ts:1397-1409 | it fails once a client's PUT has landed since, with no restore and no other wizard's write after that |
| SaveProtocol.WizardUndisturbed | ui/src/screens/vault.ts:1397-1409 | and is done when nothing came between |
| SaveProtocol.SuccessMeansHeld | src/policy.rs:592-618 | a read-back that finds the ciphertexts sent means the vault opens to what the saver wanted, in every run |
| SaveProtocol.SuccessMeansUntouched | src/policy.rs:592-618 | in every run it also means that nobody has written since, or that the vault is empty, or that a restore from history has landed since |
| SaveProtocol.RestoreUnseen | crates/secd-web/src/vault.rs:189-235 | such a restore there is: putting back the very text stored changes neither the map nor what any client knows |
| SaveProtocol.CheckSeesOnlyCiphertext | src/policy.rs:651-677 | a remark: the comparison sees names and ciphertexts and nothing of meta |
| SaveProtocol.BothSavedOneLost | src/policy.rs:572-589 | a concrete run: two checks, then two PUTs; both clients read back success and the first entry is gone |
| Register.LoadFacts | src/policy.rs:514-562 | distinct entries, all in the pre-image; nothing dropped exactly when every element is usable |
| Register.LoadOpens | src/policy.rs:531-556 | each element that opens under its own name gives one entry, with its plaintext and its meta, in the order sent; no other element does |
| Register.BeforeIs | src/policy.rs:539-542 | the pre-image holds of each name the ciphertext sent, whether or not it opens |
| Register.LoadHolds | src/tui/model.rs:1285-1302 | the register then holds a text and a meta under a name exactly when an element of that name opens to them |
| Register.LoadVault | src/policy.rs:514-562 | the loop returns those entries, the count and the pre-image |
| Register.BodyIsWhole | src/tui/model.rs:959-971 | the rows sent name each prospective name once, from the writes or from what is held |
| Register.WritesAgreeIff | src/tui/model.rs:960-988 | what the PUT sends (first write wins) is what the register then holds (last write wins) exactly when the first and the last write of each name say the same |
| Register.DuplicateDisagrees | src/tui/model.rs:960-988 | two writes of one name that differ do disagree |
| Register.BuildPayload | crates/secd-core/src/provider.rs:63-84 | the loop returns the payload of the form, or nothing |
| Register.PayloadValues | crates/secd-core/src/provider.rs:63-84 | a form is refused exactly when a field that is not optional is empty once trimmed; otherwise every value is the trimmed first text typed for its key |
| Register.PayloadFilled | crates/secd-core/src/provider.rs:63-84 | the pairs are exactly the fields filled, in the order of the schema |
| Register.TypedIsFirst | crates/secd-core/src/provider.rs:69-73 | the text of a key is that of the first pair that has it, or nothing |
| Register.SteadySiblingsAgree | src/tui/model.rs:871-882 | so what a form sends and what is then held agree, even if a key repeats |
| Register.StrangerBelow | src/tui/model.rs:833-895 | a credential stored on its own below a fused group of absent name belongs to no part of the group |
| Register.StrangerStored | src/policy.rs:293-344 | such a vault exists: for the rows `p/a`, `p/b` and a bundle `p/c` the walk returns the bundle alone and the group of the other two under a name that is not stored |
| Register.Register.ApplyLoaded | src/tui/model.rs:1285-1302 | a load leaves the maps in step, holds exactly the entries, and blocks saving exactly when something was dropped |
| Register.Register.LoadRegister | src/tui/model.rs:1304-1314 | a reload unblocks exactly when the server answers and nothing is dropped; without an answer what is held stays and saving is blocked |
| Register.Register.Commit | src/tui/model.rs:935-1001 | a PUT carries exactly the names held, minus `gone`, plus `writes`, everything else unchanged; a blocked register sends nothing; after a failed save the register is as the reload leaves it |
| Register.Register.CommitDelete | src/tui/model.rs:1003-1045 | a PUT carries exactly what was held without what was asked; a blocked register sends nothing and stays blocked; after a failed save the register is as the reload leaves it |
| Register.Register.CommitSingle | src/tui/model.rs:806-831 | the same for one entry added, changed or moved, and a rename never overwrites another |
| Register.UnderIff | src/tui/model.rs:907-921 | a name lies below a path when it starts with the path and a slash |
| Register.Register.MembersMean | src/tui/model.rs:897-905 | a credential's entries are what its shape claims, or the entry of that name when no shape claims it |
| Register.Register.FusedMeans | src/tui/model.rs:859-861 | a credential is stored as siblings exactly when it is a group whose own name is not stored |
| Register.Register.CollisionMeans | src/tui/model.rs:907-921 | a rename collides exactly when an entry is stored under the new name, or below it and no part of the credential |
| Register.Register.CommitProvider | src/tui/model.rs:833-895 | the same for the form of a provider, with exactly what it writes and drops; somebody else's entry is written over exactly when a new credential takes a stored name or an edit in place gives a fused one a field whose name is taken |
| Register.Register.FormWrites | src/tui/model.rs:859-890 | a credential stored as siblings is written back as siblings, any other as one JSON bundle; what leaves is the siblings not written again or the old name |
| Register.Register.Session | src/tui/model.rs:806-1045 | over any list of saves, deletes and reloads a blocked register sends nothing and stays blocked until the server answers a reload in which every entry is usable |
| Register.Register.Prospective | src/tui/model.rs:947-958 | the prospective names, each once |
| Register.Register.Follow | src/tui/model.rs:973-990 | after a success the three maps are in step again |
| Shapes.ShapesOf | src/policy.rs:293-344 | bundles first, then one group for each parent whose keys make a credential |
| Shapes.AgreedProvider | src/policy.rs:877-890 | a provider is agreed when every sibling names it |
| Shapes.GroupKeys | src/policy.rs:308-332 | the keys of a parent are its textual children, each once and without a slash |
| Shapes.KeysAreSiblings | src/policy.rs:308-332 | the keys are those of all the text siblings, in the order of the entries |
| Shapes.ValuesAreTexts | src/policy.rs:308-332 | each key comes with the text its entry holds |
| Shapes.BundlesAreAll | src/policy.rs:293-307 | every bundle is a shape by itself, in the order of the entries |
| Shapes.ShapesWellShaped | src/policy.rs:293-344 | what the walk returns are bundles and groups over stored names, no two groups of one parent |
| Shapes.MembersDisjoint | src/policy.rs:293-344 | no stored name is a member of two shapes |
| Shapes.CutUnique | src/policy.rs:312-314 | splitting at the last slash undoes joining |
| Index.Build | src/tui/tree.rs:75-117 | the loops build the owner and credential maps of the shapes and the loose names |
| Index.RowsPartitionIff | src/tui/tree.rs:75-161 | every stored name is in exactly one row, that of its owner, exactly when no stored name is the parent of a fused group that no other group claims |
| Index.StoredParentBreaks | src/tui/tree.rs:90-112 | such a name does break the partition |
| Index.RowOfName | src/tui/tree.rs:119-121 | otherwise the one row of a name is that of `owner_of` |
| Index.OwnerMeans | src/tui/tree.rs:75-121 | a stored name belongs to the credential whose shape claims it, or to its own |
| Index.GroupMeans | src/tui/tree.rs:75-121 | a credential under a name that is not stored is a group of more than one entry |
| Index.UnfilteredRowsAreCreds | src/tui/tree.rs:130-161 | unfiltered, the rows are the credentials |
| Index.RowIff | src/tui/tree.rs:130-161 | an open bundle is drawn as its members, one row each; else each credential let through has its row |
| PayloadJson.PushJsonStr | src/policy.rs:832-846 | the loop writes the quoted string |
| PayloadJson.PayloadJson | src/policy.rs:813-826 | the loop writes the object |
| PayloadJson.EscapedCharParses | src/policy.rs:834-844 | one escaped character is read back as itself, control characters, quotes and backslashes included |
| PayloadJson.PrintParses | src/policy.rs:813-846 | parsing what is printed, by sections 4 and 7 of RFC 8259, consumes it all and returns the same pairs |
| PayloadJson.PrintInjective | src/policy.rs:813-846 | two credentials never print alike |
| KeyHolder.Holder.OnMessage | ui/src/keyholder.worker.ts:45-55 | the key afterwards is what the request and the clock make of it; after a live tab's request everybody's last word is right and on time, whatever went before; after one from a tab that has gone, who is wrong and who is early is stated exactly |
| KeyHolder.Holder.Connect | ui/src/keyholder.worker.ts:43-58 | a tab that connects, even one that has gone meanwhile, misleads nobody, and is told the state, on time, if it is there |
| KeyHolder.Holder.TimerFires | ui/src/lib/crypto.ts:65-67 | expiry clears the key and every tab is told |
| KeyHolder.Holder.GetDek | ui/src/lib/crypto.ts:70-79 | a look drops the key exactly when it is overdue at that look, and then everyone is told; otherwise nothing moves |
| KeyHolder.Holder.ClearDek | ui/src/lib/crypto.ts:94-111 | clearing tells every live tab |
| KeyHolder.Holder.SetDek | ui/src/lib/crypto.ts:57-68 | setting starts a new deadline |
| KeyHolder.Holder.StateNow | ui/src/keyholder.worker.ts:19-21 | the state told is the state held, with exactly the time left; only an overdue key is lost by telling |
| KeyHolder.Holder.Broadcast | ui/src/keyholder.worker.ts:24-36 | every live port but the excepted one is told; a dead port is dropped |
| KeyHolder.Holder.Handle | ui/src/lib/keyops.ts:62-169 | the reply says what is held after the request; create and unlock leave the key held for twelve hours, lock leaves none, and the others leave it as it was unless it is overdue |
| KeyHolder.Holder.Deliver | ui/src/lib/keyholder.ts:51-60 | a tab adopts the oldest message queued for it, and nobody's last word changes |
| KeyHolder.Holder.IsUnlocked | ui/src/lib/keyholder.ts:65-74 | with an empty queue and a right last word a tab says unlocked only if the key is held, and says so until the deadline if it counts to it; a tab that counts to an earlier one denies a key still held |
| KeyHolder.Holder.TabGone | ui/src/keyholder.worker.ts:24-36 | a closing tab misleads nobody |
| KeyHolder.Holder.Run | ui/src/keyholder.worker.ts:19-65 | over any list of events, from any state, every live tab is right and on time unless a tab that had gone set the key and no request since has told everyone; and the key is neither lost before its deadline nor kept after a lock |
| KeyHolder.AstrayIff | ui/src/keyholder.worker.ts:45-55 | a run is astray exactly when a request that set the key for a tab that had gone, or its start, has been followed by no request of a live tab and no lock |
| KeyHolder.KeyIs | ui/src/lib/keyops.ts:62-169 | the key stands as the last request made it that set it or locked |
| KeyHolder.GoneTabMisleads | ui/src/keyholder.worker.ts:45-55 | two tabs, one gone as it asks for the key: the other takes the held key for gone |
| KeyHolder.GoneTabHastens | ui/src/keyholder.worker.ts:45-55 | the same with the key held already: the other counts to an earlier deadline |
| Redact.Redact | crates/secd-core/src/redact.rs:4-14 | the loop replaces the non-empty values, longest first |
| Redact.OrderedIs | crates/secd-core/src/redact.rs:5-8 | the working list holds exactly the non-empty values, longest first |
| Redact.OrderIsStable | crates/secd-core/src/redact.rs:5-8 | values of one length keep the order they were given in, and of equal neighbours one is kept |
| Redact.ReplaceIsSplit | crates/secd-core/src/redact.rs:9-12 | a text is cut at the leftmost matches, none overlapping, and its pieces come back unchanged and in order, joined by the replacement |
| Redact.NothingCreated | crates/secd-core/src/redact.rs:9-12 | a replacement creates no value that was not there |
| Redact.ValueGone | crates/secd-core/src/redact.rs:9-12 | after its own replacement a value is gone |
| Redact.AllGone | crates/secd-core/src/redact.rs:4-14 | no listed value is left in any text |
| Redact.RedactionCompleteIff | crates/secd-core/src/redact.rs:4-14 | over values that meet the replacement nowhere but inside it, no value is ever left in any text exactly when none is inside it; a value inside it spoils every list |
| Redact.BracketFreeIff | crates/secd-core/src/redact.rs:4-14 | values without brackets are such, and then only the word written counts |
| Redact.RedactionStable | crates/secd-core/src/redact.rs:4-14 | a text free of every value is returned unchanged, and redacting twice is redacting once |
| Redact.ValueHiddenWhole | crates/secd-core/src/redact.rs:4-14 | a text that is itself a value is hidden whole, whatever shorter values it contains |
| Groups.PrefixPass | crates/secd-core/src/group.rs:23-41 | whoever a prefix owns is in the group of the first that does, and nobody else is taken |
| Groups.CollectDirs | crates/secd-core/src/group.rs:43-57 | every first segment of an unowned name once, with all its positions in order |
| Groups.DirPass | crates/secd-core/src/group.rs:43-68 | after the second pass every position is exactly where the first two rules put it |
| Groups.InitPass | crates/secd-core/src/group.rs:70-100 | the third pass takes the names in turn and leaves every position where the third rule puts it |
| Groups.InitEndsInIff | crates/secd-core/src/group.rs:70-100 | an `init-X` that the first two rules leave free and that has `X/` beside it ends in the set `X` exactly when no earlier `init-init-X` took it along; otherwise it is in the set `init-X` |
| Groups.OpensIff | crates/secd-core/src/group.rs:70-100 | it opens the set `X` exactly when nothing took it along, no set `X` was there and no equal name came before it |
| Groups.BelowJoinsIff | crates/secd-core/src/group.rs:70-100 | a name below `X` that the first two rules leave free belongs to the set `X` if a free `init-X` has its turn, and to none otherwise |
| Groups.BareJoinsIff | crates/secd-core/src/group.rs:70-100 | so does a bare name `X`, when the set is opened by that `init-X` |
| Groups.WhyPlaced | crates/secd-core/src/group.rs:70-100 | whatever the third rule places in a set `X` is an `init-X`, `X` itself or below it, and an `init-X` is in the set with it |
| Groups.InitTakenAlong | crates/secd-core/src/group.rs:70-100 | for every X the list `init-init-X`, `init-X`, `X/k`, `init-X/z` puts `init-X` into the set `init-X` and leaves `X/k` loose |
| Groups.OwnerIsLongest | crates/secd-core/src/group.rs:20-21 | in a list sorted longest first the first owner is the longest |
| Groups.HomeIs | crates/secd-core/src/group.rs:8-9 | the first two rules in words: the longest owning prefix, else a first segment another unowned name shares |
| Groups.OwnedByIff | crates/secd-core/src/group.rs:105-107 | a prefix owns itself and whatever starts with it and a slash |
| Groups.BesideIff | crates/secd-core/src/group.rs:109-113 | something lies beside `init-X` when a name starts with `X` and a slash |
| Groups.GroupNames | crates/secd-core/src/group.rs:10-103 | each position in at most one group and exactly where the three rules put it, group names distinct, no empty group, no first segment with two loose names |
| Base64.BytesToB64url | ui/src/lib/webauthn.ts:60-80 | the index loop writes the unpadded encoding of RFC 4648, section 5 |
| Base64.B64urlToBytes | ui/src/lib/webauthn.ts:14-58 | the index loop returns the groups of four of the padded text, for every text |
| Base64.BytesOfSextets | ui/src/lib/webauthn.ts:14-80 | regrouping bytes as six bits and back gives the bytes |
| Base64.GroupsAt | ui/src/lib/webauthn.ts:60-80 | each three bytes are four groups of six bits, in order, as section 4 of RFC 4648 says |
| Base64.FilledUp | ui/src/lib/webauthn.ts:60-80 | there are as many groups as the bits need, the last filled up with zero bits |
| Base64.UrlTable | ui/src/lib/webauthn.ts:60-80 | the alphabet of section 5 of RFC 4648, by code |
| Base64.CanonicalIff | ui/src/lib/webauthn.ts:14-80 | groups of six bits are those an encoder writes exactly when none is alone and the bits left over are zero |
| Base64Stream.B64 | src/update.rs:396-427 | the accumulator loop returns the whole bytes of the symbols before the first `=`, and nothing for an empty text or a foreign symbol |
| Base64Stream.Push | src/update.rs:415-424 | one symbol into the buffer: whole bytes out, the rest kept |
| Base64Stream.BufferFits | src/update.rs:404-425 | between symbols the buffer is below 2^n and n below 8 |
| Base64Stream.ConsoleReads | ui/src/lib/webauthn.ts:14-58 | any text of either alphabet, with any number of `=` after it, gives the console its whole bytes |
| Base64Stream.UpdaterReads | src/update.rs:396-427 | and gives the updater the same bytes, unless the text is empty |
| Base64Stream.SpaceIgnored | src/update.rs:396-398 | spaces, tabs, line feeds, form feeds and carriage returns may stand anywhere, and nothing else is passed over |
| Base64Stream.RoundTrip | ui/src/lib/webauthn.ts:14-80 | what the console encodes both decoders decode, for every string of bytes |
| Base64Stream.WrittenIff | ui/src/lib/webauthn.ts:60-80 | a text is what the encoder writes for its own bytes exactly when it has no `+` or `/` and is canonical |
| RateLimit.Pending.AllowRate | crates/secd-web/src/auth.rs:259-269 | the table keeps the last minute's admissions of the address and this one if it is admitted |
| RateLimit.TableIsHeld | crates/secd-web/src/auth.rs:259-269 | the readings kept are those of the calls still remembered |
| RateLimit.HeldAreAdmitted | crates/secd-web/src/auth.rs:263-268 | only admitted calls of the address are remembered, each once |
| RateLimit.RefusedOnlyIfFull | crates/secd-web/src/auth.rs:264-266 | a refusal has ten admissions of its address within the last minute |
| RateLimit.HeldIff | crates/secd-web/src/auth.rs:259-269 | a call is remembered exactly when it was admitted and every later call of its address still found it recent |
| RateLimit.AdmittedExactly | crates/secd-web/src/auth.rs:259-269 | a call is admitted exactly when fewer than ten recent admissions of its address are still remembered |
| RateLimit.BoundBrokenIff | crates/secd-web/src/auth.rs:259-269 | past ten recent admissions a call is admitted exactly when enough of them were met by a later reading of the address a minute on |
| RateLimit.OrderedBound | crates/secd-web/src/auth.rs:259-269 | with the readings of an address in lock order a call is admitted exactly when it has fewer than ten recent admissions |
| RateLimit.RateBound | crates/secd-web/src/auth.rs:259-269 | of any eleven admissions of an address, the last comes a minute after one of the others, less the drift of that address's readings |
| RateLimit.OutOfOrder | crates/secd-web/src/auth.rs:260-261 | the clock is read before the lock: with readings out of order eleven admissions can fall within a minute |
| DeviceFlow.DevicePending.Start | crates/secd-web/src/device.rs:103-136 | starting a flow, and the code drawn |
| DeviceFlow.DevicePending.Insert | crates/secd-web/src/device.rs:60-68 | the first code drawn that is not in use after the sweep |
| DeviceFlow.DevicePending.Poll | crates/secd-web/src/device.rs:138-164 | a poll answers and forgets as the table says |
| DeviceFlow.DevicePending.Approve | crates/secd-web/src/device.rs:166-201 | an approval creates one session and records it, or changes nothing but the sweep |
| DeviceFlow.DevicePending.Deny | crates/secd-web/src/device.rs:234-256 | a denial marks the flow unless it is approved |
| DeviceFlow.DevicePending.Pending | crates/secd-web/src/device.rs:203-232 | the console is shown exactly the undecided flows still alive, with the whole seconds left to each |
| DeviceFlow.RunFaithful | crates/secd-web/src/device.rs:138-256 | over every run the table says of each flow what has been decided for it |
| DeviceFlow.VerdictStays | crates/secd-web/src/device.rs:166-256 | a decided flow stays decided the same way, even after its code is swept and reused |
| DeviceFlow.PollTells | crates/secd-web/src/device.rs:138-164 | a poll tells exactly the verdict of the flow its code stands for |
| DeviceFlow.SameAnswers | crates/secd-web/src/device.rs:152-162 | all successful polls of a flow return one token and one sealed key |
| DeviceFlow.DeniedForGood | crates/secd-web/src/device.rs:234-256 | a denied flow yields no token and is never approved, before or after |
| DeviceFlow.OneSessionPerFlow | crates/secd-web/src/device.rs:166-201 | a flow mints at most one device session, at most ten minutes old, and it is the one granted |
| DeviceFlow.NeverExpired | crates/secd-web/src/device.rs:138-148 | a poll never answers "expired": the sweep reads the clock later and has removed the flow |
| DeviceFlow.GrantedByApproval | crates/secd-web/src/device.rs:166-201 | a flow is granted only by a signed-in console's approval with a well-formed sealed key |
| DeviceFlow.ReadyMeansApproved | crates/secd-web/src/device.rs:152-162 | a device that gets its token and key was approved so before |
| DeviceFlow.StartedIff | crates/secd-web/src/device.rs:103-136 | a start is answered with a code exactly when the device names itself, its key is long enough and a code drawn is free; the flow is then new and undecided |
| DeviceFlow.ApprovedIff | crates/secd-web/src/device.rs:166-201 | an approval is done exactly when a signed-in console approves an undecided flow alive, with a well-formed key and box, and a session is made; it grants that session's token |
| DeviceFlow.MintedIff | crates/secd-web/src/device.rs:166-201 | a session is made by an approval that is done, for its flow and for the console that approved, and by nothing else |
| DeviceFlow.PollEnds | crates/secd-web/src/device.rs:138-164 | a poll forgets a flow it finds denied or overdue and no other, and says "not found" exactly when no flow alive has the code |
| DeviceFlow.DeniedIff | crates/secd-web/src/device.rs:234-256 | a denial is done exactly when a signed-in console denies a flow alive that is not granted |
| DeviceFlow.FlowStays | crates/secd-web/src/device.rs:54-58 | a flow stays under its code, whatever happens to others, until it is ten minutes old or a poll tells that it was denied |
| Handles.Pending.Insert | crates/secd-web/src/auth.rs:271-277 | the sweep and then the entry under its handle |
| Handles.Pending.Take | crates/secd-web/src/auth.rs:279-287 | the entry is removed whatever the answer is |
| Handles.HeldSince | crates/secd-web/src/auth.rs:271-311 | what is in the table was put there by the last operation that names its handle |
| Handles.HeldIff | crates/secd-web/src/auth.rs:271-311 | an entry is there exactly when it was put in, its handle not named since, and no sweep found it stale |
| Handles.TakeGives | crates/secd-web/src/auth.rs:279-287 | a take gives back what waits under its handle, unless it is more than five minutes old |
| Handles.TakeMisses | crates/secd-web/src/auth.rs:279-287 | and finds nothing exactly when nothing waits there |
| Handles.GivenWasPut | crates/secd-web/src/auth.rs:279-287 | an entry given back was put in, not touched since, and is at most five minutes old |
| Handles.GivenOnce | crates/secd-web/src/auth.rs:279-287 | between two successful takes of a handle lies a new insert of it |

## Left out

- The ciphers, argon2, X25519 and WebAuthn: sealing and opening are a book of handles in `SaveProtocol` and function parameters in `Register`.
- sqlite itself, file modes, fsync and pragmas: a statement succeeds, fails or panics; a COMMIT that fails has not committed.
- The `wraps` table and `sync_wraps`, which runs outside the transaction and ignores its own failure.
- Parsing of the jsonl text into lines and of row JSON: lines and rows are values here; the order of journal writes from concurrent requests enters as the free choice of positions in `AuditChain.ReplicaIffPrefix`.
- HTTP, routing, TLS, headers, static files, the origin checks and every screen: no hard property.
- The provider table and provider inference: parameters of `Shapes` and `Groups`.
- `create_console` and `list_for`: the first keeps no rule about other console rows and nothing else here uses it.
- The key holder's fallback without a worker, its handshake timeout, and the ciphertext operations' results: they change no shared state. `toHex` and `fromHex` are left out as easy.
- Token, nonce, handle and code randomness: fresh values are parameters, constrained to be new only where the tables' keys make the program fail otherwise. A device code is a list of draws of which the first unused one is taken.
- Waiting on mutexes: each handler's locked part is one step.
- Register.Register.Commit: the sorted order of `names` is not modelled, because the list is used as a set and sorting changes only the display; the modal forms and notes are left out too.
- Register.Register.LoadRegister: what a failed save reloads is the server's answer, a parameter here; the pre-image body kept for a manual restore is left out.
- Store.Store.Lookup: a row found is returned with its new `last_seen`; the conversion of seconds to a date is left out.
- SaveProtocol.OnlyPutsWrite: a PUT whose answer is lost is a step that writes and whose client fails; nothing is said of retries, of which the program makes none.
- Base64.B64urlToBytes: a string with a lone surrogate, which UTF-8 cannot say, is not a Dafny string and is not modelled.
- Groups.GroupNames: a member is the position of a name in the list, so that equal names stay apart; the program stores the names themselves.
- KeyHolder.Holder.OnMessage: zeroing of buffers and the opened plaintexts are left out; only whether a key is held is modelled.
- AuditChain.ImportJsonl: which texts are lists of strings is a parameter, as JSON is not parsed; a line whose `names` is no array at all holds the text `[]`, as both functions read it.
- Store.Store.Finish: a ROLLBACK that fails is taken to have ended the transaction all the same; the program drops its result, and sqlite fails it when no transaction is left.
- Store.Store.Journal: a write that fails after part of a line has reached the file is not among the outcomes.
- Sha256.Sha256: for 2^61 bytes and more the bit length saturates, as in the program; FIPS 180-4 defines no hash there.
- DeviceFlow.DevicePending.Pending: the rows come as a map; their order by creation is left out, and so are the texts of dates.
- Redact.RedactionCompleteIff: says only one half of values that straddle an end of the replacement, such as `x[red`: whether one is left depends on the other values, since a later one may break it up again.
- KeyHolder.Holder.Run: the timer is a look that drops the key once it is due; a timer that fires early is `KeyHolder.Holder.TimerFires`, which misleads nobody either.
- RateLimit.RateBound: a sufficient condition in terms of drift; the exact one is `RateLimit.AdmittedExactly`.
- Clipboard, keyring, git credential checks, update download and signature verification: calls into the system.
