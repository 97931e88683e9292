/**
 The sliding-window limiter of the sign-in routes: ten admissions in a minute for each address.
 The clock is read before the lock is taken, so readings may reach the table out of order.
 */
module RateLimit {
  /** Nanoseconds. */
  const WINDOW: nat := 60_000_000_000
  const MOST := 10

  datatype Call = Call(address: string, now: nat)

  type Table = map<string, seq<nat>>

  /** `duration_since`: zero when the other reading is the later one. */
  function Since(now: nat, t: nat): nat {
    if t <= now then now - t else 0
  }

  function Kept(hits: seq<nat>, now: nat): seq<nat> {
    if hits == [] then []
    else
      var kept, last := Kept(hits[..|hits| - 1], now), hits[|hits| - 1];
      if Since(now, last) < WINDOW then kept + [last] else kept
  }

  function HitsOf(table: Table, address: string): seq<nat> {
    if address in table then table[address] else []
  }

  predicate Allowed(table: Table, call: Call) {
    |Kept(HitsOf(table, call.address), call.now)| < MOST
  }

  function Allow(table: Table, call: Call): Table {
    var kept := Kept(HitsOf(table, call.address), call.now);
    table[call.address := if |kept| < MOST then kept + [call.now] else kept]
  }

  class Pending {
    var rate: Table

    constructor ()
      ensures rate == map[]
    {
      rate := map[];
    }

    method AllowRate(address: string, now: nat) returns (ok: bool)
      modifies this
      ensures ok == Allowed(old(rate), Call(address, now))
      ensures rate == Allow(old(rate), Call(address, now))
    {
      var hits := if address in rate then rate[address] else [];
      var kept := Retain(hits, now);
      if |kept| >= MOST {
        rate := rate[address := kept];
        return false;
      }
      rate := rate[address := kept + [now]];
      return true;
    }
  }

  method Retain(hits: seq<nat>, now: nat) returns (kept: seq<nat>)
    ensures kept == Kept(hits, now)
  {
    kept := [];
    for i := 0 to |hits|
      invariant kept == Kept(hits[..i], now)
    {
      assert hits[..i + 1][..i] == hits[..i];
      if Since(now, hits[i]) < WINDOW {
        kept := kept + [hits[i]];
      }
    }
    assert hits[..|hits|] == hits;
  }

  // -------------------------------------------------------------- runs

  function After(calls: seq<Call>): Table {
    if calls == [] then map[] else Allow(After(calls[..|calls| - 1]), calls[|calls| - 1])
  }

  predicate Admitted(calls: seq<Call>, i: nat)
    requires i < |calls|
  {
    Allowed(After(calls[..i]), calls[i])
  }

  /** Which calls the table still remembers of an address. */
  function Held(calls: seq<Call>, address: string): (held: seq<nat>)
    ensures forall k :: 0 <= k < |held| ==> held[k] < |calls|
  {
    if calls == [] then []
    else
      var n := |calls| - 1;
      var held := Held(calls[..n], address);
      if calls[n].address != address then held
      else
        var kept := Fresh(calls, held, calls[n].now);
        if |kept| < MOST then kept + [n] else kept
  }

  predicate Recent(calls: seq<Call>, i: nat, now: nat): (r: bool)
    requires i < |calls|
    ensures r <==> now < calls[i].now + 60_000_000_000
  {
    Since(now, calls[i].now) < WINDOW
  }

  function Fresh(calls: seq<Call>, held: seq<nat>, now: nat): (kept: seq<nat>)
    requires forall k :: 0 <= k < |held| ==> held[k] < |calls|
    ensures forall k :: 0 <= k < |kept| ==> kept[k] < |calls| && kept[k] in held && Recent(calls, kept[k], now)
    ensures forall i :: i in held && Recent(calls, i, now) ==> i in kept
  {
    if held == [] then []
    else
      var n := |held| - 1;
      var kept := Fresh(calls, held[..n], now);
      assert held == held[..n] + [held[n]];
      if Recent(calls, held[n], now) then kept + [held[n]] else kept
  }

  function Times(calls: seq<Call>, held: seq<nat>): seq<nat>
    requires forall k :: 0 <= k < |held| ==> held[k] < |calls|
  {
    seq(|held|, k requires 0 <= k < |held| => calls[held[k]].now)
  }

  lemma {:induction false} FreshTimes(calls: seq<Call>, held: seq<nat>, now: nat)
    requires forall k :: 0 <= k < |held| ==> held[k] < |calls|
    ensures Times(calls, Fresh(calls, held, now)) == Kept(Times(calls, held), now)
  {
    if held != [] {
      var n := |held| - 1;
      FreshTimes(calls, held[..n], now);
      assert Times(calls, held)[..n] == Times(calls, held[..n]);
    }
  }

  function OneMoreHit(hits: seq<nat>, now: nat): seq<nat> {
    if |Kept(hits, now)| < MOST then Kept(hits, now) + [now] else Kept(hits, now)
  }

  lemma HitsAfter(table: Table, call: Call, address: string)
    ensures HitsOf(Allow(table, call), address)
            == if address == call.address then OneMoreHit(HitsOf(table, address), call.now) else HitsOf(table, address)
  {
  }

  lemma HeldTimes(calls: seq<Call>, held: seq<nat>)
    requires calls != [] && forall k :: 0 <= k < |held| ==> held[k] < |calls| - 1
    ensures var n := |calls| - 1;
            var kept := Fresh(calls, held, calls[n].now);
            Times(calls, if |kept| < MOST then kept + [n] else kept) == OneMoreHit(Times(calls, held), calls[n].now)
  {
    var n := |calls| - 1;
    FreshTimes(calls, held, calls[n].now);
    var kept := Fresh(calls, held, calls[n].now);
    assert Times(calls, kept + [n]) == Times(calls, kept) + [calls[n].now];
  }

  /** The table's readings are those of the calls it remembers. */
  lemma {:induction false} TableIsHeld(calls: seq<Call>, address: string)
    ensures HitsOf(After(calls), address) == Times(calls, Held(calls, address))
  {
    if calls != [] {
      var n := |calls| - 1;
      var held := Held(calls[..n], address);
      TableIsHeld(calls[..n], address);
      assert Times(calls, held) == Times(calls[..n], held);
      HitsAfter(After(calls[..n]), calls[n], address);
      HeldTimes(calls, held);
    }
  }

  lemma AdmittedIff(calls: seq<Call>, i: nat)
    requires i < |calls|
    ensures Admitted(calls, i) <==> |Fresh(calls[..i], Held(calls[..i], calls[i].address), calls[i].now)| < MOST
  {
    var before, held := calls[..i], Held(calls[..i], calls[i].address);
    TableIsHeld(before, calls[i].address);
    FreshTimes(before, held, calls[i].now);
  }

  ghost predicate Rising(held: seq<nat>) {
    forall j, k :: 0 <= j < k < |held| ==> held[j] < held[k]
  }

  lemma {:induction false} FreshRises(calls: seq<Call>, held: seq<nat>, now: nat)
    requires Rising(held) && forall k :: 0 <= k < |held| ==> held[k] < |calls|
    ensures Rising(Fresh(calls, held, now))
  {
    if held != [] {
      var n := |held| - 1;
      FreshRises(calls, held[..n], now);
      var kept := Fresh(calls, held[..n], now);
      forall k | 0 <= k < |kept|
        ensures kept[k] < held[n]
      {
        var j :| 0 <= j < n && held[..n][j] == kept[k];
        assert held[j] == kept[k];
      }
    }
  }

  /** Only admitted calls of the address are remembered, each once. */
  ghost predicate Remembered(calls: seq<Call>, address: string, held: seq<nat>) {
    Rising(held)
    && forall k :: 0 <= k < |held| ==> held[k] < |calls| && calls[held[k]].address == address && Admitted(calls, held[k])
  }

  lemma {:induction false} HeldAreAdmitted(calls: seq<Call>, address: string)
    ensures Remembered(calls, address, Held(calls, address))
  {
    if calls != [] {
      var n := |calls| - 1;
      var held := Held(calls[..n], address);
      HeldAreAdmitted(calls[..n], address);
      StillRemembered(calls, n, address, held);
      if calls[n].address == address {
        AdmittedIff(calls, n);
        FreshSame(calls, n, held, calls[n].now);
        FreshRemembered(calls, n, address, held, calls[n].now);
        if Admitted(calls, n) {
          LastRemembered(calls, address, Fresh(calls, held, calls[n].now), n);
        }
      }
    }
  }

  lemma StillRemembered(calls: seq<Call>, n: nat, address: string, held: seq<nat>)
    requires n <= |calls| && Remembered(calls[..n], address, held)
    ensures Remembered(calls, address, held)
  {
    forall k | 0 <= k < |held|
      ensures held[k] < |calls| && calls[held[k]].address == address && Admitted(calls, held[k])
    {
      assert calls[..n][..held[k]] == calls[..held[k]];
    }
  }

  lemma FreshRemembered(calls: seq<Call>, n: nat, address: string, held: seq<nat>, now: nat)
    requires n <= |calls| && Remembered(calls, address, held) && Below(held, n)
    ensures Remembered(calls, address, Fresh(calls, held, now)) && Below(Fresh(calls, held, now), n)
  {
    var kept := Fresh(calls, held, now);
    FreshRises(calls, held, now);
    forall k | 0 <= k < |kept|
      ensures kept[k] < n && calls[kept[k]].address == address && Admitted(calls, kept[k])
    {
      var j :| 0 <= j < |held| && held[j] == kept[k];
    }
  }

  ghost predicate Below(held: seq<nat>, n: nat) {
    forall k :: 0 <= k < |held| ==> held[k] < n
  }

  lemma LastRemembered(calls: seq<Call>, address: string, kept: seq<nat>, n: nat)
    requires n < |calls| && Remembered(calls, address, kept) && Below(kept, n)
    requires calls[n].address == address && Admitted(calls, n)
    ensures Remembered(calls, address, kept + [n])
  {
  }

  lemma {:induction false} FreshSame(calls: seq<Call>, n: nat, held: seq<nat>, now: nat)
    requires n <= |calls| && forall k :: 0 <= k < |held| ==> held[k] < n
    ensures Fresh(calls[..n], held, now) == Fresh(calls, held, now)
  {
    if held != [] {
      FreshSame(calls, n, held[..|held| - 1], now);
    }
  }

  // ---------------------------------------------------------- refusals

  /** A call is refused only when ten admissions from its address lie within the last minute. */
  lemma RefusedOnlyIfFull(calls: seq<Call>, i: nat) returns (hits: seq<nat>)
    requires i < |calls| && !Admitted(calls, i)
    ensures Rising(hits) && |hits| >= MOST
    ensures forall k :: 0 <= k < |hits| ==>
              hits[k] < i && Admitted(calls, hits[k]) && calls[hits[k]].address == calls[i].address && Recent(calls, hits[k], calls[i].now)
  {
    var before, address := calls[..i], calls[i].address;
    var held := Held(before, address);
    HeldAreAdmitted(before, address);
    FreshRises(before, held, calls[i].now);
    AdmittedIff(calls, i);
    hits := Fresh(before, held, calls[i].now);
    forall k | 0 <= k < |hits|
      ensures hits[k] < i && Admitted(calls, hits[k]) && calls[hits[k]].address == address && Recent(calls, hits[k], calls[i].now)
    {
      var j :| 0 <= j < |held| && held[j] == hits[k];
      assert before[..hits[k]] == calls[..hits[k]];
    }
  }

  // ---------------------------------------------------------- what is remembered

  /** No call of the address after `i` and before `n` read the clock a minute on from `i`. */
  ghost predicate Unmet(calls: seq<Call>, i: nat, n: nat)
    requires i < n <= |calls|
  {
    forall m :: i < m < n && calls[m].address == calls[i].address ==> Recent(calls, i, calls[m].now)
  }

  ghost predicate Remembers(calls: seq<Call>, address: string, i: nat) {
    i < |calls| && calls[i].address == address && Admitted(calls, i) && Unmet(calls, i, |calls|)
  }

  /** An admission is remembered exactly until a call of its own address reads the clock a minute on. */
  lemma {:induction false} HeldIff(calls: seq<Call>, address: string, i: nat)
    ensures i in Held(calls, address) <==> Remembers(calls, address, i)
  {
    if calls != [] {
      var n := |calls| - 1;
      HeldIff(calls[..n], address, i);
      if i < n {
        RemembersStep(calls, address, i);
        HeldStep(calls, address, i);
      } else if i == n {
        LastHeldIff(calls, address);
      }
    }
  }

  lemma RemembersStep(calls: seq<Call>, address: string, i: nat)
    requires calls != [] && i < |calls| - 1
    ensures Remembers(calls, address, i) <==>
            Remembers(calls[..|calls| - 1], address, i)
            && (calls[|calls| - 1].address == address ==> Recent(calls, i, calls[|calls| - 1].now))
  {
    assert calls[..|calls| - 1][..i] == calls[..i];
  }

  lemma HeldStep(calls: seq<Call>, address: string, i: nat)
    requires calls != [] && i < |calls| - 1
    ensures i in Held(calls, address) <==>
            i in Held(calls[..|calls| - 1], address) && (calls[|calls| - 1].address == address ==> Recent(calls, i, calls[|calls| - 1].now))
  {
    var n := |calls| - 1;
    var held := Held(calls[..n], address);
    var kept := Fresh(calls, held, calls[n].now);
    assert i in kept + [n] <==> i in kept;
    if i in kept {
      var k :| 0 <= k < |kept| && kept[k] == i;
    }
  }

  lemma LastHeldIff(calls: seq<Call>, address: string)
    requires calls != []
    ensures |calls| - 1 in Held(calls, address) <==> calls[|calls| - 1].address == address && Admitted(calls, |calls| - 1)
  {
    var n := |calls| - 1;
    HeldBelow(calls[..n], address);
    if calls[n].address == address {
      AdmittedIff(calls, n);
      FreshSame(calls, n, Held(calls[..n], address), calls[n].now);
    }
  }

  lemma HeldBelow(calls: seq<Call>, address: string)
    ensures forall i :: i in Held(calls, address) ==> i < |calls|
  {
  }

  // ---------------------------------------------------------- when a call is admitted

  /** The admissions of the address before call `c` that lie within the minute before its reading. */
  ghost function RecentAdmissions(calls: seq<Call>, c: nat): set<nat>
    requires c < |calls|
  {
    set i | 0 <= i < c && calls[i].address == calls[c].address && Admitted(calls, i) && Recent(calls, i, calls[c].now)
  }

  /** Those among them that no call of the address met with a reading a minute on. */
  ghost function Standing(calls: seq<Call>, c: nat): set<nat>
    requires c < |calls|
  {
    set i | i in RecentAdmissions(calls, c) && Unmet(calls, i, c)
  }

  lemma StandingIsFresh(calls: seq<Call>, c: nat)
    requires c < |calls|
    ensures Standing(calls, c) == SetOf(Fresh(calls[..c], Held(calls[..c], calls[c].address), calls[c].now))
  {
    var before, address := calls[..c], calls[c].address;
    var held := Held(before, address);
    var kept := Fresh(before, held, calls[c].now);
    forall i: nat
      ensures i in Standing(calls, c) <==> i in kept
    {
      HeldIff(before, address, i);
      if i < c {
        assert before[..i] == calls[..i];
        assert Unmet(before, i, c) <==> Unmet(calls, i, c);
        assert i in kept ==> i in held by {
          if i in kept {
            var k :| 0 <= k < |kept| && kept[k] == i;
          }
        }
      }
      if i in kept {
        var k :| 0 <= k < |kept| && kept[k] == i;
      }
    }
  }

  /** A call is admitted exactly when fewer than ten admissions of its address within the last minute still stand. */
  lemma AdmittedExactly(calls: seq<Call>, c: nat)
    requires c < |calls|
    ensures Admitted(calls, c) <==> |Standing(calls, c)| < MOST
  {
    var before, address := calls[..c], calls[c].address;
    var held := Held(before, address);
    HeldAreAdmitted(before, address);
    FreshRises(before, held, calls[c].now);
    StandingIsFresh(calls, c);
    SizeOfRising(Fresh(before, held, calls[c].now));
    AdmittedIff(calls, c);
  }

  /**
   So the bound is broken at a call, ten admissions of the last minute notwithstanding, exactly
   when enough of them had been met by an earlier call of the address that read a later clock.
   */
  lemma BoundBrokenIff(calls: seq<Call>, c: nat)
    requires c < |calls| && |RecentAdmissions(calls, c)| >= MOST
    ensures Admitted(calls, c) <==> |RecentAdmissions(calls, c) - Standing(calls, c)| > |RecentAdmissions(calls, c)| - MOST
  {
    AdmittedExactly(calls, c);
    assert Standing(calls, c) <= RecentAdmissions(calls, c);
    Split(RecentAdmissions(calls, c), Standing(calls, c));
  }

  lemma Split(all: set<nat>, part: set<nat>)
    requires part <= all
    ensures |all - part| == |all| - |part|
  {
    assert all == part + (all - part);
  }

  /** Where an address's clock readings come in lock order, every recent admission stands, and the bound is exact. */
  lemma OrderedBound(calls: seq<Call>, c: nat)
    requires c < |calls| && Drifts(calls, calls[c].address, 0)
    ensures Admitted(calls, c) <==> |RecentAdmissions(calls, c)| < MOST
  {
    forall i | i in RecentAdmissions(calls, c)
      ensures Unmet(calls, i, c)
    {
      forall m | i < m < c && calls[m].address == calls[i].address
        ensures Recent(calls, i, calls[m].now)
      {
        assert calls[m].now <= calls[c].now + 0;
      }
    }
    assert Standing(calls, c) == RecentAdmissions(calls, c);
    AdmittedExactly(calls, c);
  }

  // ---------------------------------------------------------- the bound

  /** A later call of the address reads a clock at most `drift` before an earlier one. */
  ghost predicate Drifts(calls: seq<Call>, address: string, drift: nat) {
    forall i, j :: 0 <= i < j < |calls| && calls[i].address == calls[j].address == address ==> calls[i].now <= calls[j].now + drift
  }

  function SetOf(s: seq<nat>): set<nat> {
    set i | i in s
  }

  lemma Count(idx: seq<nat>, held: seq<nat>)
    requires Rising(idx) && forall k :: 0 <= k < |idx| ==> idx[k] in held
    ensures |idx| <= |held|
  {
    SizeOfRising(idx);
    SizeAtMost(held);
    Subset(SetOf(idx), SetOf(held));
  }

  lemma {:induction false} SizeOfRising(idx: seq<nat>)
    requires Rising(idx)
    ensures |SetOf(idx)| == |idx|
  {
    if idx != [] {
      var n := |idx| - 1;
      SizeOfRising(idx[..n]);
      assert idx == idx[..n] + [idx[n]];
      assert SetOf(idx) == SetOf(idx[..n]) + {idx[n]};
    }
  }

  lemma {:induction false} SizeAtMost(held: seq<nat>)
    ensures |SetOf(held)| <= |held|
  {
    if held != [] {
      var n := |held| - 1;
      SizeAtMost(held[..n]);
      assert held == held[..n] + [held[n]];
      assert SetOf(held) == SetOf(held[..n]) + {held[n]};
    } else {
      assert SetOf(held) == {};
    }
  }

  lemma {:induction false} Subset(a: set<nat>, b: set<nat>)
    requires a <= b
    ensures |a| <= |b|
  {
    if a != {} {
      var x :| x in a;
      Subset(a - {x}, b - {x});
    }
  }

  /**
   Of any eleven admissions of one address, the last in lock order comes a minute, less the
   drift, after one of the others: no shorter span holds more than ten.
   */
  lemma RateBound(calls: seq<Call>, address: string, idx: seq<nat>, drift: nat)
    requires Drifts(calls, address, drift) && Rising(idx) && |idx| == MOST + 1
    requires forall k :: 0 <= k < |idx| ==> idx[k] < |calls| && calls[idx[k]].address == address && Admitted(calls, idx[k])
    ensures exists k :: 0 <= k < MOST && calls[idx[k]].now + WINDOW <= calls[idx[MOST]].now + drift
  {
    var c := idx[MOST];
    if forall k :: 0 <= k < MOST ==> calls[c].now + drift < calls[idx[k]].now + WINDOW {
      NoEleventh(calls, address, idx[..MOST], c, drift);
    }
  }

  /** A call is refused that comes within a minute, less the drift, of ten admissions before it. */
  lemma NoEleventh(calls: seq<Call>, address: string, ten: seq<nat>, c: nat, drift: nat)
    requires Drifts(calls, address, drift) && Rising(ten) && |ten| == MOST && c < |calls| && calls[c].address == address
    requires forall k :: 0 <= k < |ten| ==> ten[k] < c && calls[ten[k]].address == address && Admitted(calls, ten[k])
    requires forall k :: 0 <= k < |ten| ==> calls[c].now + drift < calls[ten[k]].now + WINDOW
    ensures !Admitted(calls, c)
  {
    forall k | 0 <= k < |ten|
      ensures ten[k] in Fresh(calls[..c], Held(calls[..c], address), calls[c].now)
    {
      StillFresh(calls, ten[k], c, address, drift);
    }
    TenFresh(calls, c, ten);
  }

  /** With ten recent admissions remembered a call is refused. */
  lemma TenFresh(calls: seq<Call>, c: nat, idx: seq<nat>)
    requires c < |calls| && Rising(idx) && |idx| == MOST
    requires forall k :: 0 <= k < |idx| ==> idx[k] in Fresh(calls[..c], Held(calls[..c], calls[c].address), calls[c].now)
    ensures !Admitted(calls, c)
  {
    Count(idx, Fresh(calls[..c], Held(calls[..c], calls[c].address), calls[c].now));
    AdmittedIff(calls, c);
  }

  lemma StillFresh(calls: seq<Call>, i: nat, c: nat, address: string, drift: nat)
    requires Drifts(calls, address, drift) && i < c < |calls| && calls[c].address == address
    requires calls[i].address == address && Admitted(calls, i) && calls[c].now + drift < calls[i].now + WINDOW
    ensures i in Fresh(calls[..c], Held(calls[..c], address), calls[c].now)
  {
    var before := calls[..c];
    assert before[..i] == calls[..i];
    forall m | i < m < c && before[m].address == before[i].address
      ensures Recent(before, i, before[m].now)
    {
      assert calls[m].now <= calls[c].now + drift;
    }
    HeldIff(before, address, i);
  }

  // ---------------------------------------------------------- clocks out of order

  function Repeated(address: string, now: nat, k: nat): seq<Call> {
    seq(k, _ => Call(address, now))
  }

  function Same(t: nat, k: nat): seq<nat> {
    seq(k, _ => t)
  }

  lemma {:induction false} KeptSame(t: nat, now: nat, k: nat)
    ensures Kept(Same(t, k), now) == if Since(now, t) < WINDOW then Same(t, k) else []
  {
    if k > 0 {
      KeptSame(t, now, k - 1);
      KeptSnoc(Same(t, k - 1), t, now);
      assert Same(t, k) == Same(t, k - 1) + [t];
    }
  }

  lemma KeptSnoc(hits: seq<nat>, t: nat, now: nat)
    ensures Kept(hits + [t], now) == if Since(now, t) < WINDOW then Kept(hits, now) + [t] else Kept(hits, now)
  {
    assert (hits + [t])[..|hits|] == hits;
  }

  lemma AfterOne(calls: seq<Call>, call: Call)
    ensures After(calls + [call]) == Allow(After(calls), call)
  {
    assert (calls + [call])[..|calls|] == calls;
  }

  lemma OneAdmitted(before: seq<Call>, address: string, now: nat, k: nat)
    requires k < MOST && HitsOf(After(before), address) == Same(now, k)
    ensures HitsOf(After(before + [Call(address, now)]), address) == Same(now, k + 1)
  {
    KeptSame(now, now, k);
    AfterOne(before, Call(address, now));
    HitsAfter(After(before), Call(address, now), address);
    assert Same(now, k + 1) == Same(now, k) + [now];
  }

  lemma {:induction false} AllAdmitted(address: string, now: nat, k: nat)
    requires k <= MOST
    ensures HitsOf(After(Repeated(address, now, k)), address) == Same(now, k)
  {
    if k > 0 {
      AllAdmitted(address, now, k - 1);
      OneAdmitted(Repeated(address, now, k - 1), address, now, k - 1);
      assert Repeated(address, now, k) == Repeated(address, now, k - 1) + [Call(address, now)];
    }
  }

  /**
   Ten admissions, one a minute later, and then one whose clock was read a little before that:
   eleven admissions, the ten and the last, within a minute.
   */
  lemma OutOfOrder(address: string, t: nat, late: nat)
    requires 0 < late < WINDOW
    ensures var calls := Repeated(address, t, MOST) + [Call(address, t + WINDOW)] + [Call(address, t + WINDOW - late)];
            && (forall i :: 0 <= i < MOST ==> Admitted(calls, i) && calls[i] == Call(address, t))
            && Admitted(calls, MOST + 1) && calls[MOST + 1].now - t < WINDOW
  {
    var ten := Repeated(address, t, MOST);
    var a, b := Call(address, t + WINDOW), Call(address, t + WINDOW - late);
    var calls := ten + [a] + [b];
    forall i | 0 <= i < MOST
      ensures Admitted(calls, i) && calls[i] == Call(address, t)
    {
      assert calls[..i] == Repeated(address, t, i);
      AllAdmitted(address, t, i);
      KeptSame(t, t, i);
    }
    assert calls[..MOST + 1] == ten + [a];
    AllAdmitted(address, t, MOST);
    LateAdmitted(ten, t, a, b);
  }

  lemma LateAdmitted(ten: seq<Call>, t: nat, a: Call, b: Call)
    requires a.address == b.address && b.now < a.now
    requires HitsOf(After(ten), a.address) == Same(t, MOST) && t + WINDOW == a.now
    ensures Allowed(After(ten + [a]), b)
  {
    KeptSame(t, a.now, MOST);
    AfterOne(ten, a);
    assert HitsOf(After(ten + [a]), a.address) == [a.now];
  }
}
