/**
 The half-finished ceremonies of sign-in: each waits under a random handle, is given back once,
 and is forgotten after five minutes. The sweep reads the clock anew for every entry it looks at.
 */
module Handles {
  /** Nanoseconds. */
  const TTL: nat := 300_000_000_000

  datatype Entry = Entry(ceremony: string, created: nat)

  datatype Answer = Given(entry: Entry) | Expired | Missing

  /** `readings` is the clock as the sweep reads it at each handle, `later` as the handler reads it afterwards. */
  datatype Op =
    | Insert(handle: string, entry: Entry, readings: string -> nat)
    | Take(handle: string, readings: string -> nat, later: nat)

  type Table = map<string, Entry>

  predicate Stale(e: Entry, now: nat) {
    e.created <= now && now - e.created > TTL
  }

  function Swept(t: Table, reading: string -> nat): Table {
    map h | h in t && !Stale(t[h], reading(h)) :: t[h]
  }

  function After(t: Table, op: Op): Table {
    match op
    case Insert(handle, entry, reading) => Swept(t, reading)[handle := entry]
    case Take(handle, reading, _) => Swept(t, reading) - {handle}
  }

  function AnswerTo(t: Table, op: Op): Answer
    requires op.Take?
  {
    var left := Swept(t, op.readings);
    if op.handle !in left then Missing
    else if Stale(left[op.handle], op.later) then Expired
    else Given(left[op.handle])
  }

  class Pending {
    var inner: Table

    constructor ()
      ensures inner == map[]
    {
      inner := map[];
    }

    method Sweep(readings: string -> nat)
      modifies this
      ensures inner == Swept(old(inner), readings)
    {
      inner := map h | h in inner && !Stale(inner[h], readings(h)) :: inner[h];
    }

    method Insert(handle: string, entry: Entry, readings: string -> nat)
      modifies this
      ensures inner == After(old(inner), Op.Insert(handle, entry, readings))
    {
      Sweep(readings);
      inner := inner[handle := entry];
    }

    method Take(handle: string, readings: string -> nat, later: nat) returns (a: Answer)
      modifies this
      ensures inner == After(old(inner), Op.Take(handle, readings, later))
      ensures a == AnswerTo(old(inner), Op.Take(handle, readings, later))
    {
      Sweep(readings);
      if handle !in inner {
        return Missing;
      }
      var e := inner[handle];
      inner := inner - {handle};
      return if Stale(e, later) then Expired else Given(e);
    }
  }

  // ------------------------------------------------------------------ runs

  function Run(ops: seq<Op>): Table {
    if ops == [] then map[] else After(Run(ops[..|ops| - 1]), ops[|ops| - 1])
  }

  /** Operation `i` puts the entry under the handle. */
  predicate Puts(ops: seq<Op>, i: nat, handle: string, entry: Entry)
    requires i < |ops|
  {
    ops[i].Insert? && ops[i].handle == handle && ops[i].entry == entry
  }

  /** No operation from `i` on up to `j` names the handle. */
  ghost predicate Untouched(ops: seq<Op>, i: nat, j: nat, handle: string) {
    forall k :: i <= k < j && k < |ops| ==> ops[k].handle != handle
  }

  /** What is in the table was put there by the last operation that names its handle. */
  lemma {:induction false} HeldSince(ops: seq<Op>, handle: string)
    requires handle in Run(ops)
    ensures exists i: nat :: i < |ops| && Puts(ops, i, handle, Run(ops)[handle]) && Untouched(ops, i + 1, |ops|, handle)
  {
    var n := |ops| - 1;
    if ops[n].Insert? && ops[n].handle == handle {
      assert Puts(ops, n, handle, Run(ops)[handle]);
    } else {
      HeldSince(ops[..n], handle);
      var i: nat :| i < n && Puts(ops[..n], i, handle, Run(ops)[handle]) && Untouched(ops[..n], i + 1, n, handle);
      assert Puts(ops, i, handle, Run(ops)[handle]);
    }
  }

  /** The sweep of operation `k`, which names another handle, finds the entry stale. */
  predicate SweepsOut(ops: seq<Op>, k: nat, handle: string, entry: Entry)
    requires k < |ops|
  {
    var now := ops[k].readings(handle);
    entry.created <= now && now - entry.created > 300_000_000_000
  }

  /** Operation `i` puts the entry in, none names its handle after that, and none sweeps it out. */
  ghost predicate Waits(ops: seq<Op>, i: nat, handle: string, entry: Entry) {
    && i < |ops| && Puts(ops, i, handle, entry) && Untouched(ops, i + 1, |ops|, handle)
    && forall k: nat :: i < k < |ops| ==> !SweepsOut(ops, k, handle, entry)
  }

  /** An entry is there exactly when it was put in, left alone, and swept out by none. */
  lemma {:induction false} HeldIff(ops: seq<Op>, handle: string, entry: Entry)
    ensures handle in Run(ops) && Run(ops)[handle] == entry <==> exists i: nat :: Waits(ops, i, handle, entry)
  {
    if ops != [] {
      var n := |ops| - 1;
      HeldIff(ops[..n], handle, entry);
      forall i: nat
        ensures Waits(ops, i, handle, entry) <==>
                  (i == n && Puts(ops, n, handle, entry)) || (Waits(ops[..n], i, handle, entry) && Spares(ops, n, handle, entry))
      {
        WaitsOn(ops, n, i, handle, entry);
      }
      assert handle in Run(ops) && Run(ops)[handle] == entry <==>
               Puts(ops, n, handle, entry) || (handle in Run(ops[..n]) && Run(ops[..n])[handle] == entry && Spares(ops, n, handle, entry));
      if Puts(ops, n, handle, entry) {
        assert Waits(ops, n, handle, entry);
      }
    }
  }

  /** Operation `n` neither names the handle nor sweeps the entry out. */
  predicate Spares(ops: seq<Op>, n: nat, handle: string, entry: Entry)
    requires n < |ops|
  {
    ops[n].handle != handle && !SweepsOut(ops, n, handle, entry)
  }

  lemma WaitsOn(ops: seq<Op>, n: nat, i: nat, handle: string, entry: Entry)
    requires n == |ops| - 1
    ensures Waits(ops, i, handle, entry) <==>
              (i == n && Puts(ops, n, handle, entry)) || (Waits(ops[..n], i, handle, entry) && Spares(ops, n, handle, entry))
  {
    var rest := ops[..n];
    assert forall k: nat :: k < n ==> rest[k] == ops[k] && SweepsOut(rest, k, handle, entry) == SweepsOut(ops, k, handle, entry);
    if i < n && Waits(ops, i, handle, entry) {
      assert !SweepsOut(ops, n, handle, entry);
    }
  }

  /** A take gives back what waits under its handle, unless it finds it stale. */
  lemma TakeGives(ops: seq<Op>, i: nat, op: Op, entry: Entry)
    requires op.Take? && Waits(ops, i, op.handle, entry) && !SweepsOut(ops + [op], |ops|, op.handle, entry)
    ensures AnswerTo(Run(ops), op)
            == if entry.created <= op.later && op.later - entry.created > 300_000_000_000 then Expired else Given(entry)
  {
    HeldIff(ops, op.handle, entry);
  }

  /** A take under a handle nothing waits under finds nothing. */
  lemma TakeMisses(ops: seq<Op>, op: Op)
    requires op.Take?
    ensures AnswerTo(Run(ops), op) == Missing <==>
              !exists i: nat, entry: Entry :: Waits(ops, i, op.handle, entry) && !SweepsOut(ops + [op], |ops|, op.handle, entry)
  {
    if i: nat, entry: Entry :| Waits(ops, i, op.handle, entry) && !SweepsOut(ops + [op], |ops|, op.handle, entry) {
      HeldIff(ops, op.handle, entry);
    }
    if op.handle in Run(ops) {
      var entry := Run(ops)[op.handle];
      HeldIff(ops, op.handle, entry);
      assert SweepsOut(ops + [op], |ops|, op.handle, entry) <==> Stale(entry, op.readings(op.handle));
    }
  }

  predicate GivenAt(ops: seq<Op>, j: nat, handle: string, entry: Entry)
    requires j < |ops|
  {
    ops[j].Take? && ops[j].handle == handle && AnswerTo(Run(ops[..j]), ops[j]) == Given(entry)
  }

  /** An entry given back was put in before, its handle was not named in between, and it is at most five minutes old. */
  lemma GivenWasPut(ops: seq<Op>, j: nat, handle: string, entry: Entry)
    requires j < |ops| && GivenAt(ops, j, handle, entry)
    ensures exists i: nat :: i < j && Puts(ops, i, handle, entry) && Untouched(ops, i + 1, j, handle) && !Stale(entry, ops[j].later)
  {
    HeldSince(ops[..j], handle);
    var i: nat :| i < j && Puts(ops[..j], i, handle, entry) && Untouched(ops[..j], i + 1, j, handle);
    assert Puts(ops, i, handle, entry);
  }

  /** So each insert is given back at most once: between two successful takes of a handle lies a new insert of it. */
  lemma GivenOnce(ops: seq<Op>, a: nat, b: nat, handle: string, first: Entry, second: Entry)
    requires a < b < |ops| && GivenAt(ops, a, handle, first) && GivenAt(ops, b, handle, second)
    ensures exists i: nat :: a < i < b && Puts(ops, i, handle, second)
  {
    GivenWasPut(ops, b, handle, second);
  }
}
