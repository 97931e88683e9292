/**
 Many clients saving one vault through a route that replaces the whole of it and checks
 nothing. The command-line client reads the vault twice around its write; the console's
 wizard reads it once before and once after; the server's own version restore needs neither.

 A ciphertext is an index into `book`, the list of everything ever sealed: nonces are fresh,
 so no two seals give the same text, and whoever holds the key opens index `i` to `book[i]`.
 `log` lists the edits whose write reached the server, each with the number of writes that
 had landed when its author last looked. Both are history, not state of the program.
 */
module SaveProtocol {
  datatype Plain = Plain(text: string, meta: string)
  datatype Sealed = Sealed(name: string, plain: Plain)
  datatype Cell = Cell(ct: nat, meta: string)

  type View = map<string, Plain>
  type Vault = map<string, Cell>
  type Book = seq<Sealed>

  /** What a save asks for: `gone` leaves, `writes` arrives, the rest stays. */
  datatype Edit = Edit(writes: View, gone: set<string>)
  datatype Logged = Logged(edit: Edit, seen: nat)

  datatype Client =
    | Idle
    | Loaded(before: map<string, nat>, view: View)
    | Checked(view: View, edit: Edit, seen: nat)
    | Written(sent: map<string, nat>, view: View, wrote: nat)
    | Failed
    | WizardSealed(name: string, cell: Cell)
    | WizardRead(name: string, cell: Cell, pre: Vault, seen: nat)
    | WizardWritten(name: string, ct: nat)
    | WizardDone(name: string)

  datatype State = State(vault: Vault, book: Book, log: seq<Logged>, clients: seq<Client>)

  /** Who moves, and how. A PUT whose answer is lost has still been applied; `Unanswered` is a read that brings nothing. */
  datatype Step =
    | Load(c: nat)
    | Check(c: nat, edit: Edit)
    | Put(c: nat, answered: bool)
    | PutRefused(c: nat)
    | ReadBack(c: nat)
    | WizardSeal(c: nat, name: string, plain: Plain)
    | WizardGet(c: nat)
    | WizardPut(c: nat, answered: bool)
    | WizardReadBack(c: nat)
    | Unanswered(c: nat)
    | Restore(name: string, ct: nat)

  /** The vault as name to ciphertext: all a save ever compares. */
  function Cts(v: Vault): map<string, nat> {
    map n | n in v :: v[n].ct
  }

  function Edited(view: View, e: Edit): View {
    (view - e.gone) + e.writes
  }

  ghost predicate Binds(book: Book, name: string, ct: nat, plain: Plain) {
    ct < |book| && book[ct] == Sealed(name, plain)
  }

  /** The vault opens, under the shared key, to this view. */
  ghost predicate Opens(book: Book, v: Vault, view: View) {
    && v.Keys == view.Keys
    && forall n :: n in v ==> Binds(book, n, v[n].ct, view[n]) && v[n].meta == view[n].meta
  }

  ghost predicate CtsOpen(book: Book, cts: map<string, nat>, view: View) {
    cts.Keys == view.Keys && forall n :: n in cts ==> Binds(book, n, cts[n], view[n])
  }

  /** `sent` seals `view` afresh, appending to the book. */
  ghost predicate Seals(book: Book, book': Book, sent: Vault, view: View) {
    && book <= book'
    && Opens(book', sent, view)
    && forall n :: n in sent ==> sent[n].ct >= |book|
  }

  ghost predicate Moves(s: State, c: nat, k: Client, s': State) {
    c < |s.clients| && s'.clients == s.clients[c := k]
  }

  ghost predicate Quiet(s: State, s': State) {
    s'.vault == s.vault && s'.book == s.book && s'.log == s.log
  }

  /** The next thing this client does is a read of the vault, and it fails without an answer. */
  predicate Reads(k: Client) {
    k.Loaded? || k.Written? || k.WizardSealed? || k.WizardWritten?
  }

  ghost predicate Next(s: State, step: Step, s': State) {
    match step
    case Load(c) =>
      && c < |s.clients| && (s.clients[c].Idle? || s.clients[c].Failed? || s.clients[c].Loaded?)
      && Quiet(s, s')
      && exists view :: Opens(s.book, s.vault, view) && Moves(s, c, Loaded(Cts(s.vault), view), s')
    case Check(c, edit) =>
      && c < |s.clients| && s.clients[c].Loaded? && Quiet(s, s')
      && Moves(s, c, if Cts(s.vault) == s.clients[c].before then Checked(s.clients[c].view, edit, |s.log|) else Failed, s')
    case Put(c, answered) =>
      && c < |s.clients| && s.clients[c].Checked?
      && var k := s.clients[c];
         var view := Edited(k.view, k.edit);
         && Seals(s.book, s'.book, s'.vault, view)
         && s'.log == s.log + [Logged(k.edit, k.seen)]
         && Moves(s, c, if answered then Written(Cts(s'.vault), view, |s'.log|) else Failed, s')
    case PutRefused(c) =>
      && c < |s.clients| && (s.clients[c].Checked? || s.clients[c].WizardRead?)
      && Quiet(s, s') && Moves(s, c, Failed, s')
    case ReadBack(c) =>
      && c < |s.clients| && s.clients[c].Written? && Quiet(s, s')
      && Moves(s, c, if Cts(s.vault) == s.clients[c].sent then Loaded(s.clients[c].sent, s.clients[c].view) else Failed, s')
    case WizardSeal(c, name, plain) =>
      && c < |s.clients| && (s.clients[c].Idle? || s.clients[c].Failed? || s.clients[c].WizardDone?)
      && s'.vault == s.vault && s'.log == s.log && s'.book == s.book + [Sealed(name, plain)]
      && Moves(s, c, WizardSealed(name, Cell(|s.book|, plain.meta)), s')
    case WizardGet(c) =>
      && c < |s.clients| && s.clients[c].WizardSealed? && Quiet(s, s')
      && Moves(s, c, WizardRead(s.clients[c].name, s.clients[c].cell, s.vault, |s.log|), s')
    case WizardPut(c, answered) =>
      && c < |s.clients| && s.clients[c].WizardRead?
      && var k := s.clients[c];
         && s'.vault == k.pre[k.name := k.cell] && s'.book == s.book
         && (exists plain :: Binds(s.book, k.name, k.cell.ct, plain) &&
               s'.log == s.log + [Logged(Edit(map[k.name := plain], {}), k.seen)])
         && Moves(s, c, if answered then WizardWritten(k.name, k.cell.ct) else Failed, s')
    case WizardReadBack(c) =>
      && c < |s.clients| && s.clients[c].WizardWritten? && Quiet(s, s')
      && var k := s.clients[c];
         Moves(s, c, if k.name in s.vault && s.vault[k.name].ct == k.ct then WizardDone(k.name) else Failed, s')
    case Unanswered(c) =>
      && c < |s.clients| && Reads(s.clients[c]) && Quiet(s, s') && Moves(s, c, Failed, s')
    case Restore(name, ct) =>
      && s'.book == s.book && s'.clients == s.clients
      && exists plain :: Binds(s.book, name, ct, plain)
           && s'.vault == s.vault[name := Cell(ct, plain.meta)]
           && s'.log == s.log + [Logged(Edit(map[name := plain], {}), |s.log|)]
  }

  /** A run from a vault everyone can open, with every client idle. */
  ghost predicate Start(s: State, view: View) {
    && Opens(s.book, s.vault, view) && s.log == []
    && forall c :: 0 <= c < |s.clients| ==> s.clients[c].Idle?
  }

  ghost predicate IsRun(states: seq<State>, steps: seq<Step>, view: View) {
    && |states| == |steps| + 1 && Start(states[0], view)
    && forall i :: 0 <= i < |steps| ==> Next(states[i], steps[i], states[i + 1])
  }

  // ---------------------------------------------------- what every run leaves

  ghost predicate LogOk(log: seq<Logged>) {
    forall i :: 0 <= i < |log| ==> log[i].seen <= i
  }

  /**
   The vault the log describes. The newest write counts, on top of what its author had seen;
   whatever landed after that look and before the write is not in it.
   */
  ghost function ViewAfter(start: View, log: seq<Logged>): View
    requires LogOk(log)
    decreases |log|
  {
    if log == [] then start
    else
      var last := log[|log| - 1];
      Edited(ViewAfter(start, log[..last.seen]), last.edit)
  }

  /** All the edits, one after another. */
  ghost function Serially(start: View, log: seq<Logged>): View {
    if log == [] then start else Edited(Serially(start, log[..|log| - 1]), log[|log| - 1].edit)
  }

  ghost predicate ClientOk(s: State, start: View, k: Client)
    requires LogOk(s.log)
  {
    match k
    case Loaded(before, view) => CtsOpen(s.book, before, view)
    case Checked(view, _, seen) => seen <= |s.log| && view == ViewAfter(start, s.log[..seen])
    case Written(sent, view, wrote) => CtsOpen(s.book, sent, view) && wrote <= |s.log|
    case WizardSealed(name, cell) => exists plain :: Binds(s.book, name, cell.ct, plain) && cell.meta == plain.meta
    case WizardRead(name, cell, pre, seen) =>
      && (exists plain :: Binds(s.book, name, cell.ct, plain) && cell.meta == plain.meta)
      && seen <= |s.log| && Opens(s.book, pre, ViewAfter(start, s.log[..seen]))
    case WizardWritten(_, ct) => ct < |s.book|
    case _ => true
  }

  ghost predicate Inv(s: State, start: View) {
    && LogOk(s.log)
    && Opens(s.book, s.vault, ViewAfter(start, s.log))
    && forall c :: 0 <= c < |s.clients| ==> ClientOk(s, start, s.clients[c])
  }

  /** The book binds meta with plaintext, so equal ciphertexts are equal entries. */
  lemma CtsDecide(book: Book, v: Vault, a: View, cts: map<string, nat>, b: View)
    requires Opens(book, v, a) && CtsOpen(book, cts, b) && Cts(v) == cts
    ensures a == b
  {
    assert v.Keys == Cts(v).Keys;
    forall n | n in a
      ensures a[n] == b[n]
    {
      assert n in v && Cts(v)[n] == v[n].ct;
      assert Binds(book, n, v[n].ct, a[n]) && Binds(book, n, cts[n], b[n]);
    }
  }

  lemma OthersStay(s: State, s': State, start: View, k: Client)
    requires LogOk(s.log) && LogOk(s'.log) && s.book <= s'.book && s.log <= s'.log
    requires ClientOk(s, start, k)
    ensures ClientOk(s', start, k)
  {
    match k
    case Checked(_, _, seen) => assert s'.log[..seen] == s.log[..seen];
    case WizardRead(_, _, _, seen) => assert s'.log[..seen] == s.log[..seen];
    case _ =>
  }

  lemma Stays(s: State, s': State, start: View, c: nat, k: Client)
    requires Inv(s, start) && LogOk(s'.log) && s.book <= s'.book && s.log <= s'.log
    requires Moves(s, c, k, s') && ClientOk(s', start, k)
    ensures forall d :: 0 <= d < |s'.clients| ==> ClientOk(s', start, s'.clients[d])
  {
    forall d | 0 <= d < |s'.clients|
      ensures ClientOk(s', start, s'.clients[d])
    {
      if d != c {
        OthersStay(s, s', start, s.clients[d]);
      }
    }
  }

  lemma LogGrows(start: View, log: seq<Logged>, l: Logged)
    requires LogOk(log) && l.seen <= |log|
    ensures LogOk(log + [l])
    ensures ViewAfter(start, log + [l]) == Edited(ViewAfter(start, log[..l.seen]), l.edit)
  {
    assert (log + [l])[..l.seen] == log[..l.seen];
  }

  lemma QuietStep(s: State, step: Step, s': State, start: View)
    requires Inv(s, start) && Next(s, step, s')
    requires step.Load? || step.Check? || step.PutRefused? || step.ReadBack? || step.WizardGet? || step.WizardReadBack? || step.WizardSeal? || step.Unanswered?
    ensures Inv(s', start)
  {
    assert s.log[..|s.log|] == s.log;
    match step
    case Load(c) =>
      Stays(s, s', start, c, s'.clients[c]);
    case Check(c, _) =>
      var k := s.clients[c];
      assert ClientOk(s, start, k);
      if Cts(s.vault) == k.before {
        CtsDecide(s.book, s.vault, ViewAfter(start, s.log), k.before, k.view);
      }
      Stays(s, s', start, c, s'.clients[c]);
    case PutRefused(c) => Stays(s, s', start, c, Failed);
    case Unanswered(c) => Stays(s, s', start, c, Failed);
    case ReadBack(c) =>
      assert ClientOk(s, start, s.clients[c]);
      Stays(s, s', start, c, s'.clients[c]);
    case WizardGet(c) =>
      assert ClientOk(s, start, s.clients[c]);
      Stays(s, s', start, c, s'.clients[c]);
    case WizardReadBack(c) => Stays(s, s', start, c, s'.clients[c]);
    case WizardSeal(c, name, plain) =>
      assert Binds(s'.book, name, |s.book|, plain);
      Stays(s, s', start, c, s'.clients[c]);
  }

  lemma PutStep(s: State, c: nat, answered: bool, s': State, start: View)
    requires Inv(s, start) && Next(s, Put(c, answered), s')
    ensures Inv(s', start)
  {
    assert ClientOk(s, start, s.clients[c]);
    LogGrows(start, s.log, s'.log[|s.log|]);
    Stays(s, s', start, c, s'.clients[c]);
  }

  lemma WizardOpens(book: Book, k: Client, view: View, e: Edit)
    requires k.WizardRead? && Opens(book, k.pre, view) && e.gone == {} && e.writes.Keys == {k.name}
    requires Binds(book, k.name, k.cell.ct, e.writes[k.name]) && k.cell.meta == e.writes[k.name].meta
    ensures Opens(book, k.pre[k.name := k.cell], Edited(view, e))
  {
  }

  lemma WizardPutStep(s: State, c: nat, answered: bool, s': State, start: View)
    requires Inv(s, start) && Next(s, WizardPut(c, answered), s')
    ensures Inv(s', start)
  {
    var l := s'.log[|s.log|];
    assert ClientOk(s, start, s.clients[c]);
    LogGrows(start, s.log, l);
    WizardOpens(s.book, s.clients[c], ViewAfter(start, s.log[..l.seen]), l.edit);
    Stays(s, s', start, c, s'.clients[c]);
  }

  lemma RestoreStep(s: State, name: string, ct: nat, s': State, start: View)
    requires Inv(s, start) && Next(s, Restore(name, ct), s')
    ensures Inv(s', start)
  {
    var l := s'.log[|s.log|];
    assert s'.log == s.log + [l] && s.log[..l.seen] == s.log;
    LogGrows(start, s.log, l);
    RestoreOpens(s.book, s.vault, ViewAfter(start, s.log), name, ct, l.edit);
    AllStay(s, s', start);
  }

  lemma RestoreOpens(book: Book, v: Vault, view: View, name: string, ct: nat, e: Edit)
    requires Opens(book, v, view) && e.gone == {} && e.writes.Keys == {name} && Binds(book, name, ct, e.writes[name])
    ensures Opens(book, v[name := Cell(ct, e.writes[name].meta)], Edited(view, e))
  {
  }

  lemma AllStay(s: State, s': State, start: View)
    requires Inv(s, start) && LogOk(s'.log) && s.book <= s'.book && s.log <= s'.log && s'.clients == s.clients
    ensures forall d :: 0 <= d < |s'.clients| ==> ClientOk(s', start, s'.clients[d])
  {
    forall d | 0 <= d < |s'.clients|
      ensures ClientOk(s', start, s'.clients[d])
    {
      OthersStay(s, s', start, s.clients[d]);
    }
  }

  lemma {:induction false} RunInv(states: seq<State>, steps: seq<Step>, start: View, i: nat)
    requires IsRun(states, steps, start) && i < |states|
    ensures Inv(states[i], start)
  {
    if i > 0 {
      RunInv(states, steps, start, i - 1);
      var s, s' := states[i - 1], states[i];
      match steps[i - 1]
      case Put(c, answered) => PutStep(s, c, answered, s', start);
      case WizardPut(c, answered) => WizardPutStep(s, c, answered, s', start);
      case Restore(name, ct) => RestoreStep(s, name, ct, s', start);
      case _ => QuietStep(s, steps[i - 1], s', start);
    }
  }

  // ------------------------------------------------------------ the theorems

  /**
   Exactly what any interleaving leaves in the vault: the newest write on top of what its
   author saw. An edit is missing only because it landed inside somebody's look-to-write window.
   */
  lemma VaultIsLog(states: seq<State>, steps: seq<Step>, start: View, i: nat)
    requires IsRun(states, steps, start) && i < |states|
    ensures LogOk(states[i].log) && Opens(states[i].book, states[i].vault, ViewAfter(start, states[i].log))
  {
    RunInv(states, steps, start, i);
  }

  /** Every author's look was at the vault it replaced. */
  ghost predicate NoWriteInAnyWindow(log: seq<Logged>) {
    forall i :: 0 <= i < |log| ==> log[i].seen == i
  }

  /** With no write inside any window the run is the edits applied one after another. */
  lemma CleanRunIsSerial(states: seq<State>, steps: seq<Step>, start: View, i: nat)
    requires IsRun(states, steps, start) && i < |states|
    requires NoWriteInAnyWindow(states[i].log)
    ensures Opens(states[i].book, states[i].vault, Serially(start, states[i].log))
  {
    RunInv(states, steps, start, i);
    CleanLogIsSerial(start, states[i].log);
  }

  lemma {:induction false} CleanLogIsSerial(start: View, log: seq<Logged>)
    requires LogOk(log) && NoWriteInAnyWindow(log)
    ensures ViewAfter(start, log) == Serially(start, log)
  {
    if log != [] {
      CleanLogIsSerial(start, log[..|log| - 1]);
    }
  }

  // ------------------------------------------------------- which writes are lost

  /** The vault goes back to write `j`: it is the newest, or the author of the newest had seen it there. */
  ghost predicate Kept(log: seq<Logged>, j: int): (kept: bool)
    requires LogOk(log)
    ensures kept ==> 0 <= j < |log|
    decreases |log|
  {
    log != [] && (j == |log| - 1 || Kept(log[..log[|log| - 1].seen], j))
  }

  /** Write `k` landed on a vault that already held write `j`, and its author had not seen `j`. */
  ghost predicate Overlooks(log: seq<Logged>, k: int, j: int) {
    0 <= j < k < |log| && log[k].seen <= j
  }

  ghost predicate LostTo(log: seq<Logged>, k: int, j: int)
    requires LogOk(log)
  {
    Kept(log, k) && Overlooks(log, k, j)
  }

  ghost predicate Lost(log: seq<Logged>, j: int)
    requires LogOk(log)
  {
    exists k :: LostTo(log, k, j)
  }

  /** A write is out of the vault exactly when it landed inside the look-to-write window of a write that is not. */
  lemma {:induction false} LostExactly(log: seq<Logged>, j: nat)
    requires LogOk(log) && j < |log|
    ensures !Kept(log, j) <==> Lost(log, j)
    decreases |log|
  {
    var m := |log| - 1;
    if j < log[m].seen {
      LostExactly(log[..log[m].seen], j);
      SameLosses(log, j);
    } else {
      assert j < m ==> LostTo(log, m, j);
    }
  }

  /** What the newest write's author had seen loses a write exactly when it had lost it before. */
  lemma SameLosses(log: seq<Logged>, j: nat)
    requires LogOk(log) && log != [] && j < log[|log| - 1].seen
    ensures Lost(log, j) <==> Lost(log[..log[|log| - 1].seen], j)
  {
    var before := log[..log[|log| - 1].seen];
    assert forall k :: LostTo(log, k, j) <==> LostTo(before, k, j);
  }

  ghost predicate NothingLost(log: seq<Logged>)
    requires LogOk(log)
  {
    forall j :: 0 <= j < |log| ==> Kept(log, j)
  }

  /** No write at all is lost exactly when no write landed in any window. */
  lemma NothingLostIff(log: seq<Logged>)
    requires LogOk(log)
    ensures NothingLost(log) <==> NoWriteInAnyWindow(log)
  {
    if NothingLost(log) {
      forall k | 0 <= k < |log|
        ensures log[k].seen == k
      {
        SeenAll(log, k);
      }
    }
    if NoWriteInAnyWindow(log) {
      forall j | 0 <= j < |log|
        ensures Kept(log, j)
      {
        LostExactly(log, j);
      }
    }
  }

  lemma SeenAll(log: seq<Logged>, k: nat)
    requires LogOk(log) && NothingLost(log) && k < |log|
    ensures log[k].seen == k
  {
    var j := log[k].seen;
    if j < k {
      LostExactly(log, j);
      assert LostTo(log, k, j);
    }
  }

  /** Those writes, oldest first. */
  ghost function Lineage(log: seq<Logged>): (kept: seq<nat>)
    requires LogOk(log)
    ensures forall i :: 0 <= i < |kept| ==> kept[i] < |log|
    ensures forall i, j :: 0 <= i < j < |kept| ==> kept[i] < kept[j]
    decreases |log|
  {
    if log == [] then [] else Lineage(log[..log[|log| - 1].seen]) + [|log| - 1]
  }

  lemma {:induction false} LineageIsKept(log: seq<Logged>, j: nat)
    requires LogOk(log)
    ensures j in Lineage(log) <==> Kept(log, j)
    decreases |log|
  {
    if log != [] {
      LineageIsKept(log[..log[|log| - 1].seen], j);
    }
  }

  ghost function WritesAt(log: seq<Logged>, idx: seq<nat>): (writes: seq<Logged>)
    requires forall i :: 0 <= i < |idx| ==> idx[i] < |log|
    ensures |writes| == |idx|
  {
    seq(|idx|, i requires 0 <= i < |idx| => log[idx[i]])
  }

  lemma LineageSplits(log: seq<Logged>)
    requires LogOk(log) && log != []
    ensures var last := log[|log| - 1];
            WritesAt(log, Lineage(log)) == WritesAt(log[..last.seen], Lineage(log[..last.seen])) + [last]
  {
  }

  lemma SeriallySnoc(start: View, log: seq<Logged>, l: Logged)
    ensures Serially(start, log + [l]) == Edited(Serially(start, log), l.edit)
  {
    assert (log + [l])[..|log|] == log;
  }

  /** What is left is those writes' edits applied one after another, as if the others had never been. */
  lemma {:induction false} ViewIsLineage(start: View, log: seq<Logged>)
    requires LogOk(log)
    ensures ViewAfter(start, log) == Serially(start, WritesAt(log, Lineage(log)))
    decreases |log|
  {
    if log != [] {
      var last := log[|log| - 1];
      var before := log[..last.seen];
      ViewIsLineage(start, before);
      LineageSplits(log);
      SeriallySnoc(start, WritesAt(before, Lineage(before)), last);
    }
  }

  predicate Names(e: Edit, n: string) {
    n in e.writes || n in e.gone
  }

  ghost predicate AgreeAt(a: View, b: View, n: string) {
    (n in a <==> n in b) && (n in a ==> a[n] == b[n])
  }

  /** The newest edit that names `n` decides about it. */
  lemma {:induction false} NewestDecides(start: View, log: seq<Logged>, p: nat, n: string)
    requires p < |log| && Names(log[p].edit, n) && forall q :: p < q < |log| ==> !Names(log[q].edit, n)
    ensures AgreeAt(Serially(start, log), log[p].edit.writes, n)
  {
    if p < |log| - 1 {
      NewestDecides(start, log[..|log| - 1], p, n);
    }
  }

  lemma {:induction false} NobodyDecides(start: View, log: seq<Logged>, n: string)
    requires forall q :: 0 <= q < |log| ==> !Names(log[q].edit, n)
    ensures AgreeAt(Serially(start, log), start, n)
  {
    if log != [] {
      NobodyDecides(start, log[..|log| - 1], n);
    }
  }

  /** Write `j` names `n`, is not lost, and no later write that is not lost names it. */
  ghost predicate Decides(log: seq<Logged>, j: nat, n: string)
    requires LogOk(log)
  {
    && Kept(log, j) && Names(log[j].edit, n)
    && forall k :: j < k < |log| && Kept(log, k) ==> !Names(log[k].edit, n)
  }

  lemma DecidesView(start: View, log: seq<Logged>, j: nat, n: string)
    requires LogOk(log) && Decides(log, j, n)
    ensures AgreeAt(ViewAfter(start, log), log[j].edit.writes, n)
  {
    ViewIsLineage(start, log);
    var kept := Lineage(log);
    LineageIsKept(log, j);
    var p :| 0 <= p < |kept| && kept[p] == j;
    forall q | p < q < |kept|
      ensures !Names(WritesAt(log, kept)[q].edit, n)
    {
      assert kept[q] in kept;
      LineageIsKept(log, kept[q]);
    }
    NewestDecides(start, WritesAt(log, kept), p, n);
  }

  /** What the vault says at `n` is what the edit says: its value and meta if it writes it, nothing if it drops it. */
  ghost predicate SaysAt(book: Book, v: Vault, n: string, writes: View) {
    && (n in v <==> n in writes)
    && (n in v ==> Binds(book, n, v[n].ct, writes[n]) && v[n].meta == writes[n].meta)
  }

  /** In every run the vault says at each name what the newest unlost write that names it says, or what was there at the start. */
  lemma VaultSays(states: seq<State>, steps: seq<Step>, start: View, i: nat, n: string)
    requires IsRun(states, steps, start) && i < |states|
    ensures LogOk(states[i].log)
    ensures var s := states[i];
            && (forall j: nat :: Decides(s.log, j, n) ==> SaysAt(s.book, s.vault, n, s.log[j].edit.writes))
            && ((forall j: nat :: !Decides(s.log, j, n)) ==> SaysAt(s.book, s.vault, n, start))
  {
    RunInv(states, steps, start, i);
    var s := states[i];
    forall j: nat | Decides(s.log, j, n)
      ensures SaysAt(s.book, s.vault, n, s.log[j].edit.writes)
    {
      DecidesView(start, s.log, j, n);
    }
    if forall j: nat :: !Decides(s.log, j, n) {
      NoneDecides(start, s.log, n);
    }
  }

  lemma NoneDecides(start: View, log: seq<Logged>, n: string)
    requires LogOk(log) && forall j: nat :: !Decides(log, j, n)
    ensures AgreeAt(ViewAfter(start, log), start, n)
  {
    ViewIsLineage(start, log);
    var kept := Lineage(log);
    forall q | 0 <= q < |kept|
      ensures !Names(WritesAt(log, kept)[q].edit, n)
    {
      NotNewest(log, q, n);
    }
    NobodyDecides(start, WritesAt(log, kept), n);
  }

  lemma {:induction false} NotNewest(log: seq<Logged>, q: nat, n: string)
    requires LogOk(log) && q < |Lineage(log)| && forall j: nat :: !Decides(log, j, n)
    ensures !Names(log[Lineage(log)[q]].edit, n)
    decreases |Lineage(log)| - q
  {
    var kept := Lineage(log);
    forall k | kept[q] < k < |log| && Kept(log, k)
      ensures !Names(log[k].edit, n)
    {
      LineageIsKept(log, k);
      var r :| 0 <= r < |kept| && kept[r] == k;
      NotNewest(log, r, n);
    }
    LineageIsKept(log, kept[q]);
    assert !Decides(log, kept[q], n);
  }

  /** An edit stands when no later write overlooks it or names the same name. */
  lemma EditStands(states: seq<State>, steps: seq<Step>, start: View, i: nat, j: nat, n: string)
    requires IsRun(states, steps, start) && i < |states| && j < |states[i].log| && Names(states[i].log[j].edit, n)
    requires forall k :: j < k < |states[i].log| ==> states[i].log[k].seen > j && !Names(states[i].log[k].edit, n)
    ensures var s := states[i]; SaysAt(s.book, s.vault, n, s.log[j].edit.writes)
  {
    RunInv(states, steps, start, i);
    LostExactly(states[i].log, j);
    VaultSays(states, steps, start, i, n);
    assert Decides(states[i].log, j, n);
  }

  /** Applying an edit to one view or to another gives the same exactly when they agree at every name it says nothing about. */
  lemma EditedSameIff(saw: View, there: View, e: Edit)
    ensures Edited(saw, e) == Edited(there, e) <==> forall n :: !Names(e, n) ==> AgreeAt(saw, there, n)
  {
    var x, y := Edited(saw, e), Edited(there, e);
    if x == y {
      forall n | !Names(e, n)
        ensures AgreeAt(saw, there, n)
      {
        assert n in saw <==> n in x;
        assert n in there <==> n in y;
      }
    }
    if forall n :: !Names(e, n) ==> AgreeAt(saw, there, n) {
      forall n
        ensures n in x.Keys <==> n in y.Keys
        ensures n in x ==> n in y && x[n] == y[n]
      {
        assert !Names(e, n) ==> AgreeAt(saw, there, n);
      }
      assert x.Keys == y.Keys;
    }
  }

  /**
   In every run: write `w` leaves the vault it met with its own edit made, and nothing else
   changed, exactly when what its author saw and what it met agree at every name it leaves alone.
   */
  lemma LostIff(states: seq<State>, steps: seq<Step>, start: View, i: nat, w: nat)
    requires IsRun(states, steps, start) && i < |states| && w < |states[i].log|
    ensures LogOk(states[i].log) && LogOk(states[i].log[..w]) && LogOk(states[i].log[..w + 1])
    ensures var log := states[i].log;
            var saw, met := ViewAfter(start, log[..log[w].seen]), ViewAfter(start, log[..w]);
            ViewAfter(start, log[..w + 1]) == Edited(met, log[w].edit)
            <==> forall n :: !Names(log[w].edit, n) ==> AgreeAt(saw, met, n)
  {
    RunInv(states, steps, start, i);
    var log := states[i].log;
    assert log[..w + 1] == log[..w] + [log[w]] && log[..w][..log[w].seen] == log[..log[w].seen];
    LogGrows(start, log[..w], log[w]);
    EditedSameIff(ViewAfter(start, log[..log[w].seen]), ViewAfter(start, log[..w]), log[w].edit);
  }

  /** Only a PUT that passed its check, a wizard's PUT, and the server's own restore write; a failed check changes nothing and must load again. */
  lemma OnlyPutsWrite(s: State, step: Step, s': State)
    requires Next(s, step, s')
    ensures s'.log != s.log <==> step.Put? || step.WizardPut? || step.Restore?
    ensures s'.vault != s.vault ==> s'.log != s.log
    ensures step.Check? && Cts(s.vault) != s.clients[step.c].before ==>
              s'.vault == s.vault && s'.clients[step.c] == Failed
  {
  }

  // ---------------------------------------------------- what the read-back sees

  /** No restore came after write number `wrote`, up to state `i`. */
  ghost predicate NoRestoreSince(states: seq<State>, steps: seq<Step>, i: nat, wrote: nat)
    requires |states| == |steps| + 1 && i < |states|
  {
    forall j :: 0 <= j < i && steps[j].Restore? ==> |states[j].log| < wrote
  }

  /** What wizard `k` has sealed and not written is not in the map client `w` sent. */
  ghost predicate Apart(k: Client, w: Client) {
    (k.WizardSealed? || k.WizardRead?) && w.Written? ==> forall n :: n in w.sent ==> w.sent[n] != k.cell.ct
  }

  /** A sealed entry a wizard has not written yet is in nobody's sent map. */
  ghost predicate UnsentApart(s: State) {
    forall c, d :: 0 <= c < |s.clients| && 0 <= d < |s.clients| ==> Apart(s.clients[c], s.clients[d])
  }

  /** Since client `d` wrote: nothing landed, or what is there now is empty or holds a text `d` did not send. */
  ghost predicate SeenSince(s: State, d: nat)
    requires d < |s.clients| && s.clients[d].Written?
  {
    var k := s.clients[d];
    || (|s.log| == k.wrote && Cts(s.vault) == k.sent)
    || (|s.log| > k.wrote && (s.vault == map[] || exists n :: n in s.vault && forall m :: m in k.sent ==> k.sent[m] != s.vault[n].ct))
  }

  lemma SeenAfter(s: State, step: Step, s': State, start: View, d: nat)
    requires Inv(s, start) && UnsentApart(s) && Next(s, step, s') && !step.Restore? && d < |s'.clients| && s'.clients[d].Written?
    requires !(step.Put? && d == step.c) ==> s'.clients[d] == s.clients[d] && SeenSince(s, d)
    ensures SeenSince(s', d)
  {
    if !(step.Put? && d == step.c) {
      if step.Put? {
        SeenAfterPut(s, step, s', start, d);
      } else if step.WizardPut? {
        var w := s.clients[step.c];
        assert Apart(w, s.clients[d]) && s'.vault[w.name].ct == w.cell.ct;
      }
    }
  }

  /** Another client's PUT leaves nothing of what `d` sent. */
  lemma SeenAfterPut(s: State, step: Step, s': State, start: View, d: nat)
    requires Inv(s, start) && step.Put? && Next(s, step, s') && step.c != d < |s'.clients| && s.clients[d].Written?
    requires s'.clients[d] == s.clients[d] && SeenSince(s, d)
    ensures SeenSince(s', d)
  {
    var k := s.clients[d];
    assert ClientOk(s, start, k);
    SealIsFresh(s, k, start);
    if s'.vault != map[] {
      var n :| n in s'.vault;
      assert s'.vault[n].ct >= |s.book|;
    }
  }

  lemma BackApart(s: State, step: Step, s': State, start: View)
    requires Inv(s, start) && UnsentApart(s) && Next(s, step, s')
    ensures UnsentApart(s')
  {
    forall c, d | 0 <= c < |s'.clients| && 0 <= d < |s'.clients|
      ensures Apart(s'.clients[c], s'.clients[d])
    {
      ApartAfter(s, step, s', start, c, d);
    }
  }

  lemma ApartAfter(s: State, step: Step, s': State, start: View, c: nat, d: nat)
    requires Inv(s, start) && UnsentApart(s) && Next(s, step, s')
    requires c < |s'.clients| && d < |s'.clients|
    ensures Apart(s'.clients[c], s'.clients[d])
  {
    assert Apart(s.clients[c], s.clients[d]);
    assert ClientOk(s, start, s.clients[c]) && ClientOk(s, start, s.clients[d]);
    if step.Put? && d == step.c {
      assert c != d ==> s'.clients[c] == s.clients[c];
      SentIsFresh(s, step, s', start, s.clients[c]);
    } else if step.WizardSeal? && c == step.c {
      assert d != c ==> s'.clients[d] == s.clients[d];
      SealIsFresh(s, s.clients[d], start);
    }
  }

  lemma SentIsFresh(s: State, step: Step, s': State, start: View, k: Client)
    requires Inv(s, start) && step.Put? && Next(s, step, s') && ClientOk(s, start, k)
    ensures Apart(k, s'.clients[step.c])
  {
  }

  /** Nothing sent so far has the number the next seal gets. */
  lemma SealIsFresh(s: State, w: Client, start: View)
    requires Inv(s, start) && ClientOk(s, start, w)
    ensures w.Written? ==> forall n :: n in w.sent ==> w.sent[n] < |s.book|
  {
    if w.Written? {
      assert forall n :: n in w.sent ==> Binds(s.book, n, w.sent[n], w.view[n]);
    }
  }

  lemma {:induction false} RunApart(states: seq<State>, steps: seq<Step>, start: View, i: nat)
    requires IsRun(states, steps, start) && i < |states|
    ensures UnsentApart(states[i])
  {
    if i > 0 {
      RunApart(states, steps, start, i - 1);
      RunInv(states, steps, start, i - 1);
      BackApart(states[i - 1], steps[i - 1], states[i], start);
    }
  }

  /** A client that has just not put, and has written, had written before. */
  lemma StillWritten(s: State, step: Step, s': State, start: View, d: nat)
    requires Inv(s, start) && Next(s, step, s')
    ensures d < |s'.clients| && s'.clients[d].Written? && !(step.Put? && d == step.c) ==>
              d < |s.clients| && s'.clients[d] == s.clients[d] && s.clients[d].wrote <= |s.log|
  {
    if d < |s.clients| {
      assert ClientOk(s, start, s.clients[d]);
    }
  }

  /** A client that has written and not read back sees what its own write left, until the next restore. */
  lemma {:induction false} RunSeen(states: seq<State>, steps: seq<Step>, start: View, i: nat, d: nat)
    requires IsRun(states, steps, start) && i < |states| && d < |states[i].clients| && states[i].clients[d].Written?
    requires NoRestoreSince(states, steps, i, states[i].clients[d].wrote)
    ensures SeenSince(states[i], d)
  {
    if i > 0 {
      var s, step, s' := states[i - 1], steps[i - 1], states[i];
      RunInv(states, steps, start, i - 1);
      RunApart(states, steps, start, i - 1);
      if !(step.Put? && d == step.c) {
        StillWritten(s, step, s', start, d);
        RunSeen(states, steps, start, i - 1, d);
      }
      SeenAfter(s, step, s', start, d);
    }
  }

  /** When the read-back finds the map it sent, the vault holds what its client wanted, in every run. */
  lemma SuccessMeansHeld(states: seq<State>, steps: seq<Step>, start: View, i: nat, c: nat)
    requires IsRun(states, steps, start) && i < |states|
    requires c < |states[i].clients| && states[i].clients[c].Written?
    requires Cts(states[i].vault) == states[i].clients[c].sent
    ensures Opens(states[i].book, states[i].vault, states[i].clients[c].view)
  {
    RunInv(states, steps, start, i);
    var s := states[i];
    var k := s.clients[c];
    assert ClientOk(s, start, k);
    CtsDecide(s.book, s.vault, ViewAfter(start, s.log), k.sent, k.view);
  }

  /**
   A clobber is an error. When the read-back finds the map it sent, no write at all has landed
   since its own, unless the vault is empty or a restore from history has landed since.
   */
  lemma SuccessMeansUntouched(states: seq<State>, steps: seq<Step>, start: View, i: nat, c: nat)
    requires IsRun(states, steps, start) && i < |states|
    requires c < |states[i].clients| && states[i].clients[c].Written?
    requires Cts(states[i].vault) == states[i].clients[c].sent
    ensures |states[i].log| == states[i].clients[c].wrote || states[i].vault == map[]
            || exists j :: 0 <= j < i && steps[j].Restore? && |states[j].log| >= states[i].clients[c].wrote
  {
    var s := states[i];
    if NoRestoreSince(states, steps, i, s.clients[c].wrote) {
      RunSeen(states, steps, start, i, c);
      assert forall n :: n in s.vault ==> Cts(s.vault)[n] == s.vault[n].ct;
    }
  }

  /** A read shows just this map: the same names, each with the same ciphertext. */
  ghost predicate Shows(v: Vault, cts: map<string, nat>) {
    v.Keys == cts.Keys && forall n :: n in v ==> v[n].ct == cts[n]
  }

  lemma ShowsIff(v: Vault, cts: map<string, nat>)
    ensures Shows(v, cts) <==> Cts(v) == cts
  {
    assert v.Keys == Cts(v).Keys;
    assert forall n :: n in v ==> Cts(v)[n] == v[n].ct;
  }

  /** Whoever reads the vault next may get no answer, and then has failed; nobody else can. */
  lemma AnswerMayFail(s: State, c: nat)
    requires c < |s.clients|
    ensures (exists s' :: Next(s, Unanswered(c), s'))
            <==> s.clients[c].Loaded? || s.clients[c].Written? || s.clients[c].WizardSealed? || s.clients[c].WizardWritten?
    ensures forall s' :: Next(s, Unanswered(c), s') ==> s' == s.(clients := s.clients[c := Failed])
  {
    var s' := s.(clients := s.clients[c := Failed]);
    assert Reads(s.clients[c]) ==> Next(s, Unanswered(c), s');
  }

  /** Who has failed may load again, as may who has not begun or has only loaded; it then holds what the vault opens to. */
  lemma LoadEnds(states: seq<State>, steps: seq<Step>, start: View, i: nat, c: nat)
    requires IsRun(states, steps, start) && i < |states| && c < |states[i].clients|
    ensures (exists s' :: Next(states[i], Load(c), s')) <==> states[i].clients[c].Idle? || states[i].clients[c].Failed? || states[i].clients[c].Loaded?
    ensures forall s' :: Next(states[i], Load(c), s') ==>
              |s'.clients| == |states[i].clients| && s'.clients[c].Loaded? && Shows(states[i].vault, s'.clients[c].before)
              && Opens(states[i].book, states[i].vault, s'.clients[c].view)
  {
    RunInv(states, steps, start, i);
    var s := states[i];
    ShowsIff(s.vault, Cts(s.vault));
    if s.clients[c].Idle? || s.clients[c].Failed? || s.clients[c].Loaded? {
      assert Next(s, Load(c), s.(clients := s.clients[c := Loaded(Cts(s.vault), ViewAfter(start, s.log))]));
    }
  }

  /** The wizard seals one entry, reads the vault once, and puts back what it read with that entry in the place of its name. */
  lemma WizardWrites(states: seq<State>, steps: seq<Step>, start: View, i: nat, c: nat, name: string, plain: Plain, answered: bool)
    requires IsRun(states, steps, start) && i < |steps|
    ensures steps[i] == WizardSeal(c, name, plain) ==>
              && states[i + 1].book == states[i].book + [Sealed(name, plain)]
              && c < |states[i + 1].clients| && states[i + 1].clients[c] == WizardSealed(name, Cell(|states[i].book|, plain.meta))
    ensures steps[i] == WizardGet(c) ==>
              && c < |states[i].clients| == |states[i + 1].clients| && states[i].clients[c].WizardSealed?
              && states[i + 1].clients[c] == WizardRead(states[i].clients[c].name, states[i].clients[c].cell, states[i].vault, |states[i].log|)
    ensures steps[i] == WizardPut(c, answered) ==>
              && c < |states[i].clients| == |states[i + 1].clients| && states[i].clients[c].WizardRead?
              && var k := states[i].clients[c];
                 && states[i + 1].vault == k.pre[k.name := k.cell]
                 && states[i + 1].clients[c] == if answered then WizardWritten(k.name, k.cell.ct) else Failed
  {
    assert Next(states[i], steps[i], states[i + 1]);
  }

  /** How a check ends: it passes exactly when it shows the map that was loaded, and then the look is dated. */
  lemma CheckEnds(states: seq<State>, steps: seq<Step>, start: View, i: nat, c: nat, e: Edit)
    requires IsRun(states, steps, start) && i < |steps| && steps[i] == Check(c, e)
    ensures c < |states[i].clients| == |states[i + 1].clients| && states[i].clients[c].Loaded?
    ensures var s, k, k' := states[i], states[i].clients[c], states[i + 1].clients[c];
            if Shows(s.vault, k.before) then k' == Checked(k.view, e, |s.log|) && Opens(s.book, s.vault, k.view) else k' == Failed
  {
    assert Next(states[i], steps[i], states[i + 1]);
    RunInv(states, steps, start, i);
    var s, k := states[i], states[i].clients[c];
    assert ClientOk(s, start, k);
    ShowsIff(s.vault, k.before);
    if Shows(s.vault, k.before) {
      CtsDecide(s.book, s.vault, ViewAfter(start, s.log), k.before, k.view);
    }
  }

  /** A PUT that was checked leaves the vault opening to the edit made on what its author saw, none of it sealed before, answered or not. */
  lemma PutEnds(states: seq<State>, steps: seq<Step>, start: View, i: nat, c: nat, answered: bool)
    requires IsRun(states, steps, start) && i < |steps| && steps[i] == Put(c, answered)
    ensures c < |states[i].clients| == |states[i + 1].clients| && states[i].clients[c].Checked?
    ensures var s, s', k, k' := states[i], states[i + 1], states[i].clients[c], states[i + 1].clients[c];
            var view := Edited(k.view, k.edit);
            && Opens(s'.book, s'.vault, view) && (forall n :: n in s'.vault ==> s'.vault[n].ct >= |s.book|)
            && if answered then k'.Written? && Shows(s'.vault, k'.sent) && k'.view == view && k'.wrote == |s.log| + 1 else k' == Failed
  {
    assert Next(states[i], steps[i], states[i + 1]);
    ShowsIff(states[i + 1].vault, Cts(states[i + 1].vault));
  }

  /**
   How a read-back ends, in every run: in success exactly when it shows the map that was sent,
   and then the vault opens to what the client wanted, which is what it holds from there on.
   */
  lemma ReadBackEnds(states: seq<State>, steps: seq<Step>, start: View, i: nat, c: nat)
    requires IsRun(states, steps, start) && i < |steps| && steps[i] == ReadBack(c)
    ensures c < |states[i].clients| == |states[i + 1].clients| && states[i].clients[c].Written?
    ensures var s, k, k' := states[i], states[i].clients[c], states[i + 1].clients[c];
            if Shows(s.vault, k.sent) then k' == Loaded(k.sent, k.view) && Opens(s.book, s.vault, k.view) else k' == Failed
  {
    assert Next(states[i], steps[i], states[i + 1]);
    var k := states[i].clients[c];
    ShowsIff(states[i].vault, k.sent);
    if Shows(states[i].vault, k.sent) {
      SuccessMeansHeld(states, steps, start, i, c);
    }
  }

  /**
   What success and failure tell of the others. A read-back that succeeds had no write since its
   own, or found an empty vault, or had a restore since. Without a restore since, it fails once
   another write has landed, unless what was sent and what is there are both empty.
   */
  lemma ReadBackTells(states: seq<State>, steps: seq<Step>, start: View, i: nat, c: nat)
    requires IsRun(states, steps, start) && i < |steps| && steps[i] == ReadBack(c)
    ensures c < |states[i].clients| == |states[i + 1].clients| && states[i].clients[c].Written?
    ensures states[i + 1].clients[c].Loaded? ==>
              |states[i].log| == states[i].clients[c].wrote || states[i].vault == map[] || !NoRestoreSince(states, steps, i, states[i].clients[c].wrote)
    ensures NoRestoreSince(states, steps, i, states[i].clients[c].wrote) ==>
              (states[i + 1].clients[c].Failed? <==>
                 |states[i].log| != states[i].clients[c].wrote && !(states[i].vault == map[] && states[i].clients[c].sent == map[]))
  {
    ReadBackEnds(states, steps, start, i, c);
    var s, k := states[i], states[i].clients[c];
    ShowsIff(s.vault, k.sent);
    if NoRestoreSince(states, steps, i, k.wrote) {
      RunSeen(states, steps, start, i, c);
    }
  }

  /**
   The wizard's read-back: done exactly when the name shows the ciphertext it wrote, and then the
   vault opens there to what that ciphertext seals, under the meta it was sealed with.
   */
  lemma WizardReadBackEnds(states: seq<State>, steps: seq<Step>, start: View, i: nat, c: nat)
    requires IsRun(states, steps, start) && i < |steps| && steps[i] == WizardReadBack(c)
    ensures c < |states[i].clients| == |states[i + 1].clients| && states[i].clients[c].WizardWritten?
    ensures var s, k, k' := states[i], states[i].clients[c], states[i + 1].clients[c];
            if k.name in s.vault && s.vault[k.name].ct == k.ct
            then k' == WizardDone(k.name) && k.ct < |s.book| && s.book[k.ct].name == k.name && s.book[k.ct].plain.meta == s.vault[k.name].meta
            else k' == Failed
  {
    assert Next(states[i], steps[i], states[i + 1]);
    RunInv(states, steps, start, i);
  }

  /** Everything in the vault was sealed after `ct`. */
  ghost predicate SealedAfter(v: Vault, ct: nat) {
    forall n :: n in v ==> v[n].ct > ct
  }

  lemma {:induction false} StaysSealedAfter(states: seq<State>, steps: seq<Step>, start: View, j: nat, i: nat, ct: nat)
    requires IsRun(states, steps, start) && j < i <= |steps| && steps[j].Put? && ct < |states[j].book|
    requires forall q :: j < q < i ==> !steps[q].Restore? && !steps[q].WizardPut?
    ensures ct < |states[i].book| && SealedAfter(states[i].vault, ct)
  {
    assert Next(states[i - 1], steps[i - 1], states[i]);
    if j < i - 1 {
      StaysSealedAfter(states, steps, start, j, i - 1, ct);
    }
  }

  /** A client's PUT after the wizard's own write makes its read-back fail, unless a restore or another wizard's write comes between. */
  lemma WizardClobbered(states: seq<State>, steps: seq<Step>, start: View, j: nat, i: nat, c: nat)
    requires IsRun(states, steps, start) && j < i < |steps| && steps[j].Put? && steps[i] == WizardReadBack(c)
    requires c < |states[j].clients| && states[j].clients[c].WizardWritten?
    requires c < |states[i].clients| && states[i].clients[c] == states[j].clients[c]
    requires forall q :: j < q < i ==> !steps[q].Restore? && !steps[q].WizardPut?
    ensures c < |states[i + 1].clients| && states[i + 1].clients[c] == Failed
  {
    RunInv(states, steps, start, j);
    assert ClientOk(states[j], start, states[j].clients[c]);
    StaysSealedAfter(states, steps, start, j, i, states[j].clients[c].ct);
    WizardReadBackEnds(states, steps, start, i, c);
  }

  /** A wizard that reads back as the very next thing after its own write is done. */
  lemma WizardUndisturbed(states: seq<State>, steps: seq<Step>, start: View, i: nat, c: nat)
    requires IsRun(states, steps, start) && i + 1 < |steps| && steps[i] == WizardPut(c, true) && steps[i + 1] == WizardReadBack(c)
    ensures c < |states[i].clients| == |states[i + 2].clients| && states[i].clients[c].WizardRead?
    ensures states[i + 2].clients[c] == WizardDone(states[i].clients[c].name)
  {
    assert Next(states[i], steps[i], states[i + 1]);
    assert Next(states[i + 1], steps[i + 1], states[i + 2]);
  }

  /** One more write, of which neither the map nor any client tells. */
  ghost predicate Unseen(s: State, s': State) {
    |s'.log| == |s.log| + 1 && s'.clients == s.clients && Cts(s'.vault) == Cts(s.vault)
  }

  /** A restore does escape the read-back: wherever a run stands, putting back the very text stored leaves the map as it was. */
  lemma RestoreUnseen(s: State, view: View, n: string) returns (after: State)
    requires Opens(s.book, s.vault, view) && n in s.vault
    ensures Next(s, Restore(n, s.vault[n].ct), after) && Unseen(s, after)
  {
    var ct, plain := s.vault[n].ct, view[n];
    assert Binds(s.book, n, ct, plain);
    after := s.(vault := s.vault[n := Cell(ct, plain.meta)], log := s.log + [Logged(Edit(map[n := plain], {}), |s.log|)]);
    assert Cts(after.vault) == Cts(s.vault);
  }

  /** The save comparison is blind to meta: a vault whose meta alone changed passes every check. */
  lemma CheckSeesOnlyCiphertext(v: Vault, w: Vault)
    ensures Cts(v) == Cts(w) <==> v.Keys == w.Keys && forall n :: n in v ==> v[n].ct == w[n].ct
  {
    assert v.Keys == Cts(v).Keys && w.Keys == Cts(w).Keys;
    if Cts(v) == Cts(w) {
      forall n | n in v
        ensures v[n].ct == w[n].ct
      {
        assert Cts(v)[n] == Cts(w)[n];
      }
    }
  }

  // ------------------------------------------------------- losses nobody is told of

  const RACE_A := Edit(map["a" := Plain("x", "{}")], {})
  const RACE_B := Edit(map["b" := Plain("x", "{}")], {})
  const RACE_SEALED: Book := [Sealed("a", Plain("x", "{}")), Sealed("b", Plain("x", "{}"))]
  const RACE_VAULT_A: Vault := map["a" := Cell(0, "{}")]
  const RACE_VAULT_B: Vault := map["b" := Cell(1, "{}")]

  /** Client `c` of the race after its `n`-th move. */
  ghost function Racer(edit: Edit, sent: Vault, wrote: nat, n: nat): Client {
    if n == 0 then Idle
    else if n == 1 then Loaded(map[], map[])
    else if n == 2 then Checked(map[], edit, 0)
    else if n == 3 then Written(Cts(sent), edit.writes, wrote)
    else Loaded(Cts(sent), edit.writes)
  }

  ghost function RaceState(writes: nat, a: nat, b: nat): State
    requires writes <= 2
  {
    State(if writes == 0 then map[] else if writes == 1 then RACE_VAULT_A else RACE_VAULT_B,
          RACE_SEALED[..writes], [Logged(RACE_A, 0), Logged(RACE_B, 0)][..writes],
          [Racer(RACE_A, RACE_VAULT_A, 1, a), Racer(RACE_B, RACE_VAULT_B, 2, b)])
  }

  ghost function RaceAt(i: nat): State {
    if i <= 2 then RaceState(0, if i == 0 then 0 else 1, if i == 2 then 1 else 0)
    else if i <= 4 then RaceState(0, 2, i - 2)
    else if i <= 6 then RaceState(1, i - 2, 2)
    else RaceState(2, 4, if i == 7 then 3 else 4)
  }

  ghost function RaceMove(i: nat): Step {
    if i < 2 then Load(i)
    else if i < 4 then Check(i - 2, if i == 2 then RACE_A else RACE_B)
    else
      var c := if i < 6 then 0 else 1;
      if i % 2 == 0 then Put(c, true) else ReadBack(c)
  }

  ghost function RaceStates(): seq<State> {
    seq(9, (i: nat) => RaceAt(i))
  }

  ghost function RaceSteps(): seq<Step> {
    seq(8, (i: nat) => RaceMove(i))
  }

  lemma RaceLoads()
    ensures Start(RaceState(0, 0, 0), map[])
    ensures Next(RaceState(0, 0, 0), Load(0), RaceState(0, 1, 0))
    ensures Next(RaceState(0, 1, 0), Load(1), RaceState(0, 1, 1))
  {
    var nothing: View := map[];
    assert Opens([], map[], nothing) && Cts(map[]) == map[];
    assert Moves(RaceState(0, 0, 0), 0, Loaded(Cts(map[]), nothing), RaceState(0, 1, 0));
    assert Moves(RaceState(0, 1, 0), 1, Loaded(Cts(map[]), nothing), RaceState(0, 1, 1));
  }

  lemma RaceChecks()
    ensures Next(RaceState(0, 1, 1), Check(0, RACE_A), RaceState(0, 2, 1))
    ensures Next(RaceState(0, 2, 1), Check(1, RACE_B), RaceState(0, 2, 2))
  {
    assert Cts(map[]) == map[];
  }

  lemma RacePutA()
    ensures Next(RaceState(0, 2, 2), Put(0, true), RaceState(1, 3, 2))
    ensures Next(RaceState(1, 3, 2), ReadBack(0), RaceState(1, 4, 2))
  {
    var s, s' := RaceState(0, 2, 2), RaceState(1, 3, 2);
    assert Edited(map[], RACE_A) == RACE_A.writes;
    assert s'.book == [Sealed("a", Plain("x", "{}"))] && s'.log == [Logged(RACE_A, 0)];
    assert Seals(s.book, s'.book, s'.vault, RACE_A.writes);
  }

  lemma RacePutB()
    ensures Next(RaceState(1, 4, 2), Put(1, true), RaceState(2, 4, 3))
    ensures Next(RaceState(2, 4, 3), ReadBack(1), RaceState(2, 4, 4))
  {
    var s, s' := RaceState(1, 4, 2), RaceState(2, 4, 3);
    assert Edited(map[], RACE_B) == RACE_B.writes;
    assert s'.book == RACE_SEALED && s'.log == s.log + [Logged(RACE_B, 0)];
    assert Seals(s.book, s'.book, s'.vault, RACE_B.writes);
  }

  lemma RaceGoes(i: nat)
    requires i < 8
    ensures Next(RaceAt(i), RaceMove(i), RaceAt(i + 1))
  {
    if i < 2 {
      RaceLoads();
    } else if i < 4 {
      RaceChecks();
    } else if i < 6 {
      RacePutA();
    } else {
      RacePutB();
    }
  }

  /** Two clients both check before either writes. Both are told their save succeeded; the first one's entry is gone. */
  lemma BothSavedOneLost()
    ensures IsRun(RaceStates(), RaceSteps(), map[])
    ensures var s := RaceStates()[6]; s.clients[0] == Loaded(Cts(s.vault), RACE_A.writes) && "a" in s.vault
    ensures var s := RaceStates()[8]; s.clients[1] == Loaded(Cts(s.vault), RACE_B.writes) && "a" !in s.vault
  {
    RaceLoads();
    forall i | 0 <= i < 8
      ensures Next(RaceStates()[i], RaceSteps()[i], RaceStates()[i + 1])
    {
      RaceGoes(i);
    }
  }
}
