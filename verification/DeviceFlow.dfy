/**
 The device approval flow: a device starts a flow and polls with its code, a signed-in console
 approves it, sealing the vault key for it, or denies it.

 A handler reads the clock before it takes the lock on the table, and the sweep it then runs
 reads it again: an operation carries both readings, `now` and `later`.
 */
module DeviceFlow {
  import opened Wrappers

  /** Nanoseconds: ten minutes. */
  const TTL: nat := 600_000_000_000

  datatype Sealed = Sealed(eph: string, blob: string)
  datatype Approved = Approved(token: string, sealedKey: Sealed)

  /** `flow` tells apart the flows a code has been used for; the program has no such field. */
  datatype Device = Device(flow: nat, hostname: string, eph: seq<bv8>, created: nat, approved: Option<Approved>, denied: bool)

  type Table = map<string, Device>

  datatype State = State(devices: Table, flows: nat, minted: seq<Mint>)

  /** A device session created for a flow. */
  datatype Mint = Mint(flow: nat, email: string, token: string, age: nat)

  datatype Op =
    | Start(eph: Option<seq<bv8>>, deviceId: string, hostname: string, draws: seq<string>, now: nat, later: nat)
    | Poll(code: string, now: nat, later: nat)
    | Approve(console: Option<string>, code: string, sealedKey: Sealed, token: Option<string>, now: nat, later: nat)
    | Deny(console: Option<string>, code: string, now: nat, later: nat)

  datatype Reply =
    | Started(code: string) | Waiting | Ready(token: string, sealedKey: Sealed) | Expired | Denied
    | Done | Already | BadRequest | NotFound | Refused | StoreFailed | Drawing

  function Age(now: nat, created: nat): nat {
    if created <= now then now - created else 0
  }

  /** `seconds` whole seconds, and not one more, are left at `now` to a flow of that moment. */
  ghost predicate WholeSeconds(seconds: nat, created: nat, now: nat) {
    var age := if now < created then 0 else now - created;
    if age <= TTL then seconds * 1_000_000_000 <= TTL - age < (seconds + 1) * 1_000_000_000 else seconds == 0
  }

  predicate Live(d: Device, now: nat) {
    Age(now, d.created) <= TTL
  }

  function Swept(devices: Table, now: nat): Table {
    map code | code in devices && Live(devices[code], now) :: devices[code]
  }

  predicate LowerHex(s: string) {
    forall i :: 0 <= i < |s| ==> '0' <= s[i] <= '9' || 'a' <= s[i] <= 'f'
  }

  /** A 32-byte public key, and a nonce, a ciphertext and a tag, in hex. */
  predicate SealedOk(s: Sealed) {
    |s.eph| == 64 && LowerHex(s.eph) && |s.blob| >= 80 && |s.blob| % 2 == 0 && LowerHex(s.blob)
  }

  /** The first code drawn that is not in use; the program draws until there is one. */
  function FirstFree(devices: Table, draws: seq<string>): (code: Option<string>)
    ensures code.Some? ==> code.value !in devices
  {
    if draws == [] then None
    else if draws[0] in devices then FirstFree(devices, draws[1..])
    else Some(draws[0])
  }

  // ------------------------------------------------------------- one operation

  function StartStep(s: State, op: Op): (State, Reply)
    requires op.Start?
  {
    if op.eph.None? || |op.eph.value| < 32 || op.deviceId == "" || op.hostname == "" then (s, BadRequest)
    else
      var devices := Swept(s.devices, op.later);
      var code := FirstFree(devices, op.draws);
      if code.None? then (s.(devices := devices), Drawing)
      else
        (State(devices[code.value := Device(s.flows, op.hostname, op.eph.value[..32], op.now, None, false)], s.flows + 1, s.minted),
         Started(code.value))
  }

  function PollStep(s: State, op: Op): (State, Reply)
    requires op.Poll?
  {
    var devices := Swept(s.devices, op.later);
    var swept := s.(devices := devices);
    var gone := s.(devices := devices - {op.code});
    if op.code !in devices then (swept, NotFound)
    else if !Live(devices[op.code], op.now) then (gone, Expired)
    else if devices[op.code].denied then (gone, Denied)
    else
      match devices[op.code].approved
      case None => (swept, Waiting)
      case Some(a) => (swept, Ready(a.token, a.sealedKey))
  }

  function ApproveStep(s: State, op: Op): (State, Reply)
    requires op.Approve?
  {
    if op.console.None? then (s, Refused)
    else
      var devices := Swept(s.devices, op.later);
      var swept := s.(devices := devices);
      if op.code !in devices || !Live(devices[op.code], op.now) then (swept, Refused)
      else if devices[op.code].denied then (swept, BadRequest)
      else if devices[op.code].approved.Some? then (swept, Already)
      else if !SealedOk(op.sealedKey) then (swept, BadRequest)
      else if op.token.None? then (swept, StoreFailed)
      else
        var d := devices[op.code];
        (State(devices[op.code := d.(approved := Some(Approved(op.token.value, op.sealedKey)))], s.flows,
               s.minted + [Mint(d.flow, op.console.value, op.token.value, Age(op.later, d.created))]),
         Done)
  }

  function DenyStep(s: State, op: Op): (State, Reply)
    requires op.Deny?
  {
    if op.console.None? then (s, Refused)
    else
      var devices := Swept(s.devices, op.later);
      var swept := s.(devices := devices);
      if op.code !in devices || !Live(devices[op.code], op.now) then (swept, NotFound)
      else if devices[op.code].approved.Some? then (swept, Already)
      else (s.(devices := devices[op.code := devices[op.code].(denied := true)]), Done)
  }

  function Step(s: State, op: Op): (State, Reply) {
    match op
    case Start(_, _, _, _, _, _) => StartStep(s, op)
    case Poll(_, _, _) => PollStep(s, op)
    case Approve(_, _, _, _, _, _) => ApproveStep(s, op)
    case Deny(_, _, _, _) => DenyStep(s, op)
  }

  class DevicePending {
    var inner: Table
    /** How many flows have been started. */
    var flows: nat
    ghost var minted: seq<Mint>

    ghost function Value(): State
      reads this
    {
      State(inner, flows, minted)
    }

    constructor ()
      ensures Value() == Empty()
    {
      inner, flows, minted := map[], 0, [];
    }

    method Sweep(now: nat)
      modifies this`inner
      ensures inner == Swept(old(inner), now)
    {
      inner := map code | code in inner && Live(inner[code], now) :: inner[code];
    }

    method Insert(d: Device, draws: seq<string>, later: nat) returns (code: Option<string>)
      modifies this`inner
      ensures code == FirstFree(Swept(old(inner), later), draws)
      ensures inner == if code.Some? then Swept(old(inner), later)[code.value := d] else Swept(old(inner), later)
    {
      Sweep(later);
      var i := 0;
      while i < |draws| && draws[i] in inner
        invariant i <= |draws| && inner == Swept(old(inner), later) && FirstFree(inner, draws[i..]) == FirstFree(inner, draws)
      {
        assert draws[i..][1..] == draws[i + 1..];
        i := i + 1;
      }
      if i == |draws| {
        return None;
      }
      inner := inner[draws[i] := d];
      code := Some(draws[i]);
    }

    method Start(eph: Option<seq<bv8>>, deviceId: string, hostname: string, draws: seq<string>, now: nat, later: nat) returns (r: Reply)
      modifies this
      ensures (Value(), r) == Step(old(Value()), Op.Start(eph, deviceId, hostname, draws, now, later))
    {
      if eph.None? {
        return BadRequest;
      }
      if |eph.value| < 32 {
        return BadRequest;
      }
      if deviceId == "" || hostname == "" {
        return BadRequest;
      }
      var code := Insert(Device(flows, hostname, eph.value[..32], now, None, false), draws, later);
      if code.None? {
        return Drawing;
      }
      flows := flows + 1;
      r := Started(code.value);
    }

    method Poll(code: string, now: nat, later: nat) returns (r: Reply)
      modifies this
      ensures (Value(), r) == Step(old(Value()), Op.Poll(code, now, later))
    {
      Sweep(later);
      if code !in inner {
        return NotFound;
      }
      var d := inner[code];
      if !Live(d, now) {
        inner := inner - {code};
        return Expired;
      }
      if d.denied {
        inner := inner - {code};
        return Denied;
      }
      match d.approved {
        case None => r := Waiting;
        case Some(a) => r := Ready(a.token, a.sealedKey);
      }
    }

    method Approve(console: Option<string>, code: string, sealedKey: Sealed, token: Option<string>, now: nat, later: nat) returns (r: Reply)
      modifies this
      ensures (Value(), r) == Step(old(Value()), Op.Approve(console, code, sealedKey, token, now, later))
    {
      if console.None? {
        return Refused;
      }
      Sweep(later);
      if code !in inner || !Live(inner[code], now) {
        return Refused;
      }
      var d := inner[code];
      if d.denied {
        return BadRequest;
      }
      if d.approved.Some? {
        return Already;
      }
      if !SealedOk(sealedKey) {
        return BadRequest;
      }
      if token.None? {
        return StoreFailed;
      }
      minted := minted + [Mint(d.flow, console.value, token.value, Age(later, d.created))];
      inner := inner[code := d.(approved := Some(Approved(token.value, sealedKey)))];
      r := Done;
    }

    method Deny(console: Option<string>, code: string, now: nat, later: nat) returns (r: Reply)
      modifies this
      ensures (Value(), r) == Step(old(Value()), Op.Deny(console, code, now, later))
    {
      if console.None? {
        return Refused;
      }
      Sweep(later);
      if code !in inner || !Live(inner[code], now) {
        return NotFound;
      }
      if inner[code].approved.Some? {
        return Already;
      }
      inner := inner[code := inner[code].(denied := true)];
      r := Done;
    }

    /** What the console is shown: the flows still to be decided, with the seconds they have left. */
    method Pending(console: Option<string>, now: nat, later: nat) returns (rows: Option<map<string, nat>>)
      modifies this
      ensures rows.Some? <==> console.Some?
      ensures flows == old(flows) && minted == old(minted)
      ensures inner == if console.Some? then Swept(old(inner), later) else old(inner)
      ensures rows.Some? ==> forall code ::
                code in rows.value <==> code in inner && inner[code].approved.None? && !inner[code].denied
      ensures rows.Some? ==> forall code :: code in rows.value ==> WholeSeconds(rows.value[code], inner[code].created, now)
    {
      if console.None? {
        return None;
      }
      Sweep(later);
      rows := Some(map code | code in inner && inner[code].approved.None? && !inner[code].denied
                     :: (if Age(now, inner[code].created) <= TTL then TTL - Age(now, inner[code].created) else 0) / 1_000_000_000);
    }
  }

  // ------------------------------------------------------------------ runs

  function Empty(): State {
    State(map[], 0, [])
  }

  function After(run: seq<Op>): State {
    if run == [] then Empty() else Step(After(run[..|run| - 1]), run[|run| - 1]).0
  }

  function ReplyAt(run: seq<Op>, i: nat): Reply
    requires i < |run|
  {
    Step(After(run[..i]), run[i]).1
  }

  /** The flow an operation finds under its code. */
  function FlowOf(s: State, op: Op): Option<nat>
    requires !op.Start?
  {
    var devices := Swept(s.devices, op.later);
    if op.code in devices then Some(devices[op.code].flow) else None
  }

  function FlowAt(run: seq<Op>, i: nat): Option<nat>
    requires i < |run|
  {
    if run[i].Start? then None else FlowOf(After(run[..i]), run[i])
  }

  datatype Verdict = Undecided | Granted(token: string, sealedKey: Sealed) | Rejected

  /** What the operation decides for a flow. */
  function Decides(s: State, op: Op, flow: nat): Option<Verdict> {
    if op.Start? || Step(s, op).1 != Done || FlowOf(s, op) != Some(flow) then None
    else if op.Approve? && op.token.Some? then Some(Granted(op.token.value, op.sealedKey))
    else Some(Rejected)
  }

  /** What has been decided for a flow. */
  function VerdictOf(run: seq<Op>, flow: nat): Verdict {
    if run == [] then Undecided
    else
      var n := |run| - 1;
      Decides(After(run[..n]), run[n], flow).GetOr(VerdictOf(run[..n], flow))
  }

  lemma OneMore(run: seq<Op>, op: Op, flow: nat)
    ensures VerdictOf(run + [op], flow) == Decides(After(run), op, flow).GetOr(VerdictOf(run, flow))
    ensures After(run + [op]) == Step(After(run), op).0
  {
    assert (run + [op])[..|run|] == run;
  }

  predicate Says(d: Device, v: Verdict) {
    match v
    case Undecided => d.approved.None? && !d.denied
    case Granted(t, k) => d.approved == Some(Approved(t, k)) && !d.denied
    case Rejected => d.approved.None? && d.denied
  }

  ghost predicate OneCodeEach(devices: Table) {
    forall a, b :: a in devices && b in devices && devices[a].flow == devices[b].flow ==> a == b
  }

  /** The table says of each of its flows what has been decided for it. */
  ghost predicate SaysAll(run: seq<Op>, devices: Table, flows: nat) {
    forall c :: c in devices ==> devices[c].flow < flows && Says(devices[c], VerdictOf(run, devices[c].flow))
  }

  ghost predicate NoneYet(run: seq<Op>, flows: nat) {
    forall f: nat :: flows <= f ==> VerdictOf(run, f) == Undecided
  }

  ghost predicate Faithful(run: seq<Op>, devices: Table, flows: nat) {
    OneCodeEach(devices) && SaysAll(run, devices, flows) && NoneYet(run, flows)
  }

  ghost predicate FaithfulAfter(run: seq<Op>) {
    Faithful(run, After(run).devices, After(run).flows)
  }

  /** Forgetting flows changes nothing for those left. */
  lemma Fewer(run: seq<Op>, run': seq<Op>, all: Table, flows: nat, devices: Table)
    requires Faithful(run, all, flows) && forall f: nat :: VerdictOf(run', f) == VerdictOf(run, f)
    requires forall c :: c in devices ==> c in all && devices[c] == all[c]
    ensures Faithful(run', devices, flows)
  {
    assert forall c :: c in devices ==> Says(all[c], VerdictOf(run, all[c].flow));
  }

  lemma StartFaithful(run: seq<Op>, devices: Table, flows: nat, code: string, d: Device)
    requires Faithful(run, devices, flows) && code !in devices && d.flow == flows && Says(d, Undecided)
    ensures Faithful(run, devices[code := d], flows + 1)
  {
    assert VerdictOf(run, flows) == Undecided;
  }

  /** A flow is decided, or denied again. */
  lemma DecideFaithful(run: seq<Op>, run': seq<Op>, devices: Table, flows: nat, code: string, d: Device, v: Verdict)
    requires Faithful(run, devices, flows) && code in devices && d.flow == devices[code].flow && Says(d, v)
    requires forall f: nat :: VerdictOf(run', f) == if f == d.flow then v else VerdictOf(run, f)
    ensures Faithful(run', devices[code := d], flows)
  {
    var devices' := devices[code := d];
    forall c | c in devices'
      ensures devices'[c].flow < flows && Says(devices'[c], VerdictOf(run', devices'[c].flow))
    {
      assert devices'[c].flow == devices[c].flow;
    }
  }

  lemma StepFaithful(run: seq<Op>, op: Op)
    requires FaithfulAfter(run)
    ensures FaithfulAfter(run + [op])
  {
    var s, run' := After(run), run + [op];
    forall f: nat
      ensures VerdictOf(run', f) == Decides(s, op, f).GetOr(VerdictOf(run, f))
    {
      OneMore(run, op, f);
    }
    OneMore(run, op, 0);
    if Step(s, op).1 != Done || op.Start? || op.Poll? {
      QuietStep(run, op, run');
    } else {
      DoneStep(run, op, run');
    }
  }

  lemma QuietStep(run: seq<Op>, op: Op, run': seq<Op>)
    requires FaithfulAfter(run) && (Step(After(run), op).1 != Done || op.Start? || op.Poll?)
    requires forall f: nat :: VerdictOf(run', f) == VerdictOf(run, f)
    ensures Faithful(run', Step(After(run), op).0.devices, Step(After(run), op).0.flows)
  {
    var s, s' := After(run), Step(After(run), op).0;
    if op.Start? {
      StartStepFaithful(run, s, op, run');
    } else {
      QuietTable(s, op);
      Fewer(run, run', s.devices, s.flows, s'.devices);
    }
  }

  lemma QuietTable(s: State, op: Op)
    requires op.Poll? || (Step(s, op).1 != Done && !op.Start?)
    ensures Step(s, op).0.flows == s.flows
    ensures forall c :: c in Step(s, op).0.devices ==> c in s.devices && Step(s, op).0.devices[c] == s.devices[c]
  {
  }

  lemma StartStepFaithful(run: seq<Op>, s: State, op: Op, run': seq<Op>)
    requires op.Start? && Faithful(run, s.devices, s.flows) && forall f: nat :: VerdictOf(run', f) == VerdictOf(run, f)
    ensures Faithful(run', StartStep(s, op).0.devices, StartStep(s, op).0.flows)
  {
    var s' := StartStep(s, op).0;
    var devices := Swept(s.devices, op.later);
    if s'.flows > s.flows {
      Fewer(run, run', s.devices, s.flows, devices);
      var code := FirstFree(devices, op.draws).value;
      StartFaithful(run', devices, s.flows, code, s'.devices[code]);
    } else {
      Fewer(run, run', s.devices, s.flows, s'.devices);
    }
  }

  lemma DoneStep(run: seq<Op>, op: Op, run': seq<Op>)
    requires FaithfulAfter(run) && Step(After(run), op).1 == Done && (op.Approve? || op.Deny?)
    requires forall f: nat :: VerdictOf(run', f) == Decides(After(run), op, f).GetOr(VerdictOf(run, f))
    ensures Faithful(run', Step(After(run), op).0.devices, Step(After(run), op).0.flows)
  {
    var s, s' := After(run), Step(After(run), op).0;
    var devices := Swept(s.devices, op.later);
    Fewer(run, run, s.devices, s.flows, devices);
    var d := s'.devices[op.code];
    DecideFaithful(run, run', devices, s.flows, op.code, d, VerdictOf(run', d.flow));
  }

  lemma {:induction false} RunFaithful(run: seq<Op>)
    ensures FaithfulAfter(run)
  {
    if run != [] {
      var n := |run| - 1;
      RunFaithful(run[..n]);
      assert run[..n] + [run[n]] == run;
      StepFaithful(run[..n], run[n]);
    }
  }

  // ------------------------------------------------------------------ what follows

  /** Once decided, a flow's verdict never changes, whatever becomes of its code. */
  lemma {:induction false} VerdictStays(run: seq<Op>, i: nat, flow: nat)
    requires i <= |run| && VerdictOf(run[..i], flow) != Undecided
    ensures VerdictOf(run, flow) == VerdictOf(run[..i], flow)
  {
    var n := |run| - 1;
    if i < |run| {
      assert run[..n][..i] == run[..i] && run[..n] + [run[n]] == run;
      VerdictStays(run[..n], i, flow);
      RunFaithful(run[..n]);
      OneMore(run[..n], run[n], flow);
      DecidedOnce(run[..n], run[n], flow);
    } else {
      assert run[..i] == run;
    }
  }

  lemma DecidedOnce(run: seq<Op>, op: Op, flow: nat)
    requires FaithfulAfter(run) && VerdictOf(run, flow) != Undecided
    ensures Decides(After(run), op, flow).GetOr(VerdictOf(run, flow)) == VerdictOf(run, flow)
  {
    var s := After(run);
    if Decides(s, op, flow).Some? {
      assert Says(s.devices[op.code], VerdictOf(run, flow));
    }
  }

  /** A poll tells exactly what has been decided for the flow its code stands for. */
  lemma PollTells(run: seq<Op>, i: nat)
    requires i < |run| && run[i].Poll? && FlowAt(run, i).Some? && ReplyAt(run, i) != Expired
    ensures match VerdictOf(run[..i], FlowAt(run, i).value)
            case Undecided => ReplyAt(run, i) == Waiting
            case Granted(t, k) => ReplyAt(run, i) == Ready(t, k)
            case Rejected => ReplyAt(run, i) == Denied
  {
    RunFaithful(run[..i]);
    var s := After(run[..i]);
    assert Says(s.devices[run[i].code], VerdictOf(run[..i], FlowAt(run, i).value));
  }

  /** The sweep reads the clock after the handler does, so a poll never answers that its flow has expired: the flow is gone. */
  lemma NeverExpired(run: seq<Op>, i: nat)
    requires i < |run| && run[i].now <= run[i].later
    ensures ReplyAt(run, i) != Expired
  {
  }

  predicate Answered(run: seq<Op>, i: nat, flow: nat)
    requires i < |run|
  {
    run[i].Poll? && FlowAt(run, i) == Some(flow) && ReplyAt(run, i).Ready?
  }

  /** All answers a flow's device gets carry the same token and the same sealed key. */
  lemma SameAnswers(run: seq<Op>, i: nat, j: nat, flow: nat)
    requires i <= j < |run| && Answered(run, i, flow) && Answered(run, j, flow)
    ensures ReplyAt(run, i) == ReplyAt(run, j)
  {
    PollTells(run, i);
    PollTells(run, j);
    assert run[..j][..i] == run[..i];
    VerdictStays(run[..j], i, flow);
  }

  predicate DeniedAt(run: seq<Op>, i: nat, flow: nat)
    requires i < |run|
  {
    run[i].Deny? && FlowAt(run, i) == Some(flow) && ReplyAt(run, i) == Done
  }

  predicate ApprovedAt(run: seq<Op>, i: nat, flow: nat)
    requires i < |run|
  {
    run[i].Approve? && FlowAt(run, i) == Some(flow) && ReplyAt(run, i) == Done
  }

  lemma DecisionTaken(run: seq<Op>, i: nat, flow: nat)
    requires i < |run| && (DeniedAt(run, i, flow) || ApprovedAt(run, i, flow))
    ensures VerdictOf(run[..i + 1], flow)
            == if run[i].Approve? then Granted(run[i].token.GetOr(""), run[i].sealedKey) else Rejected
  {
    assert run[..i + 1] == run[..i] + [run[i]];
    OneMore(run[..i], run[i], flow);
  }

  /** A denied flow never yields a token and is never approved, before or after. */
  lemma DeniedForGood(run: seq<Op>, i: nat, j: nat, flow: nat)
    requires i < |run| && j < |run| && DeniedAt(run, i, flow)
    ensures !Answered(run, j, flow) && !ApprovedAt(run, j, flow)
  {
    DecisionTaken(run, i, flow);
    VerdictStays(run, i + 1, flow);
    if Answered(run, j, flow) {
      PollTells(run, j);
      VerdictStays(run, j, flow);
    }
    if ApprovedAt(run, j, flow) {
      DecisionTaken(run, j, flow);
      VerdictStays(run, j + 1, flow);
    }
  }

  /** The table holds an undecided flow under the code, and it is alive at both readings. */
  ghost predicate OpenTo(run: seq<Op>, op: Op, flow: nat)
    requires !op.Start?
  {
    && op.code in After(run).devices && After(run).devices[op.code].flow == flow && VerdictOf(run, flow) == Undecided
    && op.now <= After(run).devices[op.code].created + 600_000_000_000 && op.later <= After(run).devices[op.code].created + 600_000_000_000
  }

  /** The flow an operation finds under its code, alive at both readings. */
  ghost predicate Finds(s: State, op: Op, d: Device)
    requires !op.Start?
  {
    op.code in s.devices && s.devices[op.code] == d && Live(d, op.now) && Live(d, op.later)
  }

  lemma OpenMeans(run: seq<Op>, op: Op, d: Device)
    requires !op.Start? && op.code in After(run).devices && After(run).devices[op.code] == d
    ensures OpenTo(run, op, d.flow) <==> Finds(After(run), op, d) && d.approved.None? && !d.denied
    ensures RejectedAlive(run, op, d.flow) <==> Finds(After(run), op, d) && d.denied
  {
    RunFaithful(run);
    assert Says(After(run).devices[op.code], VerdictOf(run, d.flow));
  }

  lemma DoneMeans(s: State, op: Op, d: Device)
    requires !op.Start? && op.code in s.devices && s.devices[op.code] == d
    ensures op.Approve? ==>
              (Step(s, op).1 == Done <==>
                op.console.Some? && op.token.Some? && SealedOk(op.sealedKey) && Finds(s, op, d) && d.approved.None? && !d.denied)
    ensures op.Deny? ==> (Step(s, op).1 == Done <==> op.console.Some? && Finds(s, op, d) && d.approved.None?)
  {
  }

  lemma FindsNothing(s: State, op: Op)
    requires (op.Approve? || op.Deny?) && op.code !in s.devices
    ensures Step(s, op).1 != Done
  {
  }

  /** What is done is decided for the flow found. */
  lemma DoneDecides(run: seq<Op>, op: Op, d: Device)
    requires (op.Approve? || op.Deny?) && Step(After(run), op).1 == Done
    requires op.code in After(run).devices && After(run).devices[op.code] == d
    ensures VerdictOf(run + [op], d.flow)
            == if op.Approve? then Granted(op.token.GetOr(""), op.sealedKey) else Rejected
  {
    OneMore(run, op, d.flow);
  }

  /**
   An approval is done exactly when a signed-in console approves an undecided flow alive, with a
   32-byte key and a sealed box in lower-case hex, and the store makes a session; the flow is then
   granted that session's token.
   */
  lemma ApprovedIff(run: seq<Op>, op: Op)
    requires op.Approve?
    ensures Step(After(run), op).1 == Done <==>
              && op.console.Some? && op.token.Some? && (exists flow: nat :: OpenTo(run, op, flow))
              && |op.sealedKey.eph| == 64 && |op.sealedKey.blob| >= 80 && |op.sealedKey.blob| % 2 == 0
              && forall c :: c in op.sealedKey.eph + op.sealedKey.blob ==> '0' <= c <= '9' || 'a' <= c <= 'f'
    ensures Step(After(run), op).1 == Done ==>
              forall flow: nat :: OpenTo(run, op, flow) ==> VerdictOf(run + [op], flow) == Granted(op.token.value, op.sealedKey)
  {
    if op.code in After(run).devices {
      var d := After(run).devices[op.code];
      OpenMeans(run, op, d);
      DoneMeans(After(run), op, d);
      if Step(After(run), op).1 == Done {
        DoneDecides(run, op, d);
      }
    } else {
      FindsNothing(After(run), op);
    }
    HexIff(op.sealedKey.eph, op.sealedKey.blob);
  }

  lemma HexIff(a: string, b: string)
    ensures LowerHex(a) && LowerHex(b) <==> forall c :: c in a + b ==> '0' <= c <= '9' || 'a' <= c <= 'f'
  {
    assert forall i :: 0 <= i < |a| ==> a[i] in a + b;
    assert forall i :: 0 <= i < |b| ==> b[i] in a + b;
  }

  /** A denial is done exactly when a signed-in console denies a flow alive that is not granted, and rejects it. */
  lemma DeniedIff(run: seq<Op>, op: Op)
    requires op.Deny?
    ensures Step(After(run), op).1 == Done <==>
              op.console.Some? && exists flow: nat :: (OpenTo(run, op, flow) || RejectedAlive(run, op, flow))
    ensures Step(After(run), op).1 == Done ==> forall flow: nat :: OpenTo(run, op, flow) ==> VerdictOf(run + [op], flow) == Rejected
  {
    if op.code in After(run).devices {
      var d := After(run).devices[op.code];
      RunFaithful(run);
      assert Says(d, VerdictOf(run, d.flow));
      OpenMeans(run, op, d);
      DoneMeans(After(run), op, d);
      if Step(After(run), op).1 == Done {
        DoneDecides(run, op, d);
      }
    } else {
      FindsNothing(After(run), op);
    }
  }

  ghost predicate RejectedAlive(run: seq<Op>, op: Op, flow: nat)
    requires !op.Start?
  {
    && op.code in After(run).devices && After(run).devices[op.code].flow == flow && VerdictOf(run, flow) == Rejected
    && op.now <= After(run).devices[op.code].created + 600_000_000_000 && op.later <= After(run).devices[op.code].created + 600_000_000_000
  }

  /** A flow stays under its code, whatever happens to others, until it is ten minutes old or a poll tells that it was denied. */
  lemma FlowStays(run: seq<Op>, op: Op, code: string)
    requires code in After(run).devices && op.later <= After(run).devices[code].created + 600_000_000_000
    requires !(op.Poll? && op.code == code && (VerdictOf(run, After(run).devices[code].flow) == Rejected || op.now > After(run).devices[code].created + 600_000_000_000))
    ensures code in After(run + [op]).devices && After(run + [op]).devices[code].flow == After(run).devices[code].flow
    ensures After(run + [op]).devices[code].created == After(run).devices[code].created
  {
    RunFaithful(run);
    OneMore(run, op, 0);
    var d := After(run).devices[code];
    assert Says(d, VerdictOf(run, d.flow));
    StepKeeps(After(run), op, code, d);
  }

  lemma StepKeeps(s: State, op: Op, code: string, d: Device)
    requires code in s.devices && s.devices[code] == d && Live(d, op.later)
    requires !(op.Poll? && op.code == code && (d.denied || !Live(d, op.now)))
    ensures code in Step(s, op).0.devices
    ensures Step(s, op).0.devices[code].flow == d.flow && Step(s, op).0.devices[code].created == d.created
  {
    var swept := Swept(s.devices, op.later);
    assert code in swept && swept[code] == d;
    match op
    case Start(_, _, _, _, _, _) => assert StartStep(s, op).1.Started? ==> StartStep(s, op).1.code !in swept;
    case Poll(_, _, _) =>
    case Approve(_, _, _, _, _, _) =>
    case Deny(_, _, _, _) =>
  }

  /** A session is made by an approval that is done, for its flow and for the console that approved, and by nothing else. */
  lemma MintedIff(run: seq<Op>, op: Op, flow: nat)
    ensures var before, after := After(run).minted, After(run + [op]).minted;
            if op.Approve? && Step(After(run), op).1 == Done then
              && op.console.Some? && op.token.Some? && |after| == |before| + 1 && before == after[..|before|]
              && (OpenTo(run, op, flow) ==>
                    && after[|before|].flow == flow && after[|before|].email == op.console.value
                    && after[|before|].token == op.token.value)
            else after == before
  {
    OneMore(run, op, flow);
  }

  /** A poll that finds its flow denied or expired is the last: the code is forgotten. Any other poll forgets only what is overdue, and one that finds nothing alive says so. */
  lemma PollEnds(run: seq<Op>, op: Op, code: string)
    requires op.Poll?
    ensures var before, after := After(run).devices, After(run + [op]).devices;
            && (code in after <==>
                  && code in before && op.later <= before[code].created + 600_000_000_000
                  && (code == op.code ==> op.now <= before[code].created + 600_000_000_000 && VerdictOf(run, before[code].flow) != Rejected))
            && (code in after ==> after[code] == before[code])
            && (Step(After(run), op).1 == NotFound <==>
                  !(op.code in before && op.later <= before[op.code].created + 600_000_000_000))
  {
    RunFaithful(run);
    OneMore(run, op, 0);
    if op.code in After(run).devices {
      assert Says(After(run).devices[op.code], VerdictOf(run, After(run).devices[op.code].flow));
    }
  }

  /** A start is answered with a code exactly when the device names itself, its key is long enough and a code drawn is free; the flow is new and undecided. */
  lemma StartedIff(run: seq<Op>, op: Op)
    requires op.Start?
    ensures Step(After(run), op).1.Started? <==>
              && op.eph.Some? && |op.eph.value| >= 32 && op.deviceId != "" && op.hostname != ""
              && exists i :: 0 <= i < |op.draws| && op.draws[i] !in Swept(After(run).devices, op.later)
    ensures Step(After(run), op).1.Started? ==>
              var code := Step(After(run), op).1.code;
              && code in op.draws && code in After(run + [op]).devices
              && After(run + [op]).devices[code] == Device(After(run).flows, op.hostname, op.eph.value[..32], op.now, None, false)
              && VerdictOf(run + [op], After(run).flows) == Undecided
  {
    RunFaithful(run);
    OneMore(run, op, After(run).flows);
    FreeIff(Swept(After(run).devices, op.later), op.draws);
  }

  lemma {:induction false} FreeIff(devices: Table, draws: seq<string>)
    ensures FirstFree(devices, draws).Some? <==> exists i :: 0 <= i < |draws| && draws[i] !in devices
    ensures FirstFree(devices, draws).Some? ==> FirstFree(devices, draws).value in draws
  {
    if draws != [] && draws[0] in devices {
      FreeIff(devices, draws[1..]);
      if i :| 0 <= i < |draws| && draws[i] !in devices {
        assert draws[1..][i - 1] == draws[i];
      }
    }
  }

  /** A signed-in console approved the flow, with a well-formed sealed key, while it was alive. */
  predicate ProperApproval(run: seq<Op>, i: nat, flow: nat, token: string, sealedKey: Sealed)
    requires i < |run|
  {
    && ApprovedAt(run, i, flow) && run[i].console.Some? && run[i].token == Some(token)
    && run[i].sealedKey == sealedKey && SealedOk(sealedKey)
  }

  /** A flow is granted by such an approval and by nothing else. */
  lemma {:induction false} GrantedByApproval(run: seq<Op>, flow: nat)
    requires VerdictOf(run, flow).Granted?
    ensures var v := VerdictOf(run, flow); exists i: nat :: i < |run| && ProperApproval(run, i, flow, v.token, v.sealedKey)
  {
    var n, v := |run| - 1, VerdictOf(run, flow);
    if Decides(After(run[..n]), run[n], flow).Some? {
      assert ProperApproval(run, n, flow, v.token, v.sealedKey);
    } else {
      GrantedByApproval(run[..n], flow);
      var i: nat :| i < n && ProperApproval(run[..n], i, flow, v.token, v.sealedKey);
      assert run[..n][..i] == run[..i];
      assert ProperApproval(run, i, flow, v.token, v.sealedKey);
    }
  }

  /** A device that gets its token and key was approved by a console before, and never otherwise. */
  lemma ReadyMeansApproved(run: seq<Op>, j: nat, flow: nat)
    requires j < |run| && Answered(run, j, flow)
    ensures exists i: nat :: i < j && ProperApproval(run, i, flow, ReplyAt(run, j).token, ReplyAt(run, j).sealedKey)
  {
    PollTells(run, j);
    GrantedByApproval(run[..j], flow);
    var r := ReplyAt(run, j);
    var i: nat :| i < j && ProperApproval(run[..j], i, flow, r.token, r.sealedKey);
    assert run[..j][..i] == run[..i];
    assert ProperApproval(run, i, flow, r.token, r.sealedKey);
  }

  // ------------------------------------------------------------------ sessions

  /** Every session was created for a flow then at most ten minutes old, and is the one the flow was granted. */
  ghost predicate MintsFit(run: seq<Op>, minted: seq<Mint>) {
    && (forall i, j :: 0 <= i < j < |minted| ==> minted[i].flow != minted[j].flow)
    && (forall i :: 0 <= i < |minted| ==> MintFits(run, minted[i]))
  }

  ghost predicate MintFits(run: seq<Op>, m: Mint) {
    var v := VerdictOf(run, m.flow);
    m.age <= TTL && v.Granted? && v.token == m.token
  }

  /** Over any run, a flow mints at most one device session. */
  lemma {:induction false} OneSessionPerFlow(run: seq<Op>)
    ensures MintsFit(run, After(run).minted)
  {
    if run != [] {
      var n := |run| - 1;
      var before, op := run[..n], run[n];
      assert before + [op] == run;
      OneSessionPerFlow(before);
      RunFaithful(before);
      OldMints(before, op, After(before).minted);
      if After(run).minted != After(before).minted {
        NewMint(before, op);
      }
    }
  }

  lemma OldMints(run: seq<Op>, op: Op, minted: seq<Mint>)
    requires FaithfulAfter(run) && MintsFit(run, minted)
    ensures MintsFit(run + [op], minted)
  {
    forall i | 0 <= i < |minted|
      ensures MintFits(run + [op], minted[i])
    {
      assert MintFits(run, minted[i]);
      OneMore(run, op, minted[i].flow);
      DecidedOnce(run, op, minted[i].flow);
    }
  }

  lemma NewMint(run: seq<Op>, op: Op)
    requires FaithfulAfter(run) && MintsFit(run, After(run).minted) && MintsFit(run + [op], After(run).minted)
    requires Step(After(run), op).0.minted != After(run).minted
    ensures MintsFit(run + [op], Step(After(run), op).0.minted)
  {
    var s := After(run);
    var m := MintIs(s, op);
    assert Says(s.devices[op.code], VerdictOf(run, m.flow));
    OneMore(run, op, m.flow);
    assert MintFits(run + [op], m);
    forall i | 0 <= i < |s.minted|
      ensures s.minted[i].flow != m.flow
    {
      assert MintFits(run, s.minted[i]);
    }
  }

  /** A step that mints approves a flow alive and undecided, and mints one session for it. */
  lemma MintIs(s: State, op: Op) returns (m: Mint)
    requires Step(s, op).0.minted != s.minted
    ensures Step(s, op).0.minted == s.minted + [m]
    ensures op.Approve? && op.code in s.devices && m.flow == s.devices[op.code].flow && m.age <= TTL
    ensures s.devices[op.code].approved.None? && !s.devices[op.code].denied
    ensures Decides(s, op, m.flow) == Some(Granted(m.token, op.sealedKey))
  {
    var d := s.devices[op.code];
    m := Mint(d.flow, op.console.value, op.token.value, Age(op.later, d.created));
  }
}
