/**
 One shared worker holds the vault key for every tab. It answers requests, broadcasts its
 state, and drops the key on request, on a timer, or when somebody looks at it too late;
 each tab knows only what its own first-in-first-out port has delivered.

 Time passes by an arbitrary amount at every reading of the clock, and a tab may be gone at
 any moment, after which posting to its port throws.
 */
module KeyHolder {
  import opened Wrappers

  type Port = nat

  const TTL_MS: int := 12 * 60 * 60 * 1000

  /** A reply or a broadcast: both carry the state. `posted` is when, which the text does not carry. */
  datatype Msg = Msg(unlocked: bool, remaining: int, posted: int)

  /** `told` is the last state adopted; `unlocked` is that, unless the tab's own countdown ran out since. */
  datatype Tab = Tab(told: bool, unlocked: bool, deadline: int)

  /** A request, with how the key operation behind it turns out. */
  datatype Op = State | Create(minted: bool) | Unlock(unwrapped: bool) | Lock | Use {
    predicate Sets() {
      this == Create(true) || this == Unlock(true)
    }
  }

  /** What can happen. A port never heard of asks nothing, and a tab that has gone takes nothing in. */
  datatype Event =
    | Connects(p: Port)
    | Asks(p: Port, op: Op)
    | Delivers(p: Port)
    | Looks(p: Port)
    | Closes(p: Port)
    | TimerDue

  /** What the requests since some moment have made of the key. */
  datatype Standing = AsBefore | Set | Locked

  /** `astray`: some live tab may be wrong, for nothing has told it since a tab that had gone set the key. */
  datatype Course = Course(known: set<Port>, gone: set<Port>, astray: bool, key: Standing)

  function Onward(c: Course, e: Event): Course {
    match e
    case Connects(p) => c.(known := c.known + {p})
    case Closes(p) => c.(gone := c.gone + {p})
    case Asks(p, op) =>
      if p !in c.known then c
      else c.(astray := p in c.gone && (op.Sets() || (c.astray && !op.Lock?)),
              key := if op.Sets() then Set else if op.Lock? then Locked else c.key)
    case _ => c
  }

  function CourseOf(c: Course, events: seq<Event>): Course {
    if events == [] then c else Onward(CourseOf(c, events[..|events| - 1]), events[|events| - 1])
  }

  /** Port `p` is known, or is not, once the first `k` events have happened; so for tabs that have gone. */
  predicate KnownBy(c: Course, events: seq<Event>, k: nat, p: Port) {
    p in c.known || exists i :: 0 <= i < k && i < |events| && events[i] == Connects(p)
  }

  predicate GoneBy(c: Course, events: seq<Event>, k: nat, p: Port) {
    p in c.gone || exists i :: 0 <= i < k && i < |events| && events[i] == Closes(p)
  }

  /** Event `k` is a request of a known tab. */
  predicate Heard(c: Course, events: seq<Event>, k: nat)
    requires k < |events|
  {
    events[k].Asks? && KnownBy(c, events, k, events[k].p)
  }

  /** It leads astray: the tab has gone, and the request sets the key. */
  predicate Misleads(c: Course, events: seq<Event>, k: nat)
    requires k < |events|
  {
    Heard(c, events, k) && GoneBy(c, events, k, events[k].p) && events[k].op.Sets()
  }

  /** It sets everyone right: the tab is there, or the request locks. */
  predicate Rights(c: Course, events: seq<Event>, k: nat)
    requires k < |events|
  {
    Heard(c, events, k) && !Misleads(c, events, k) && (!GoneBy(c, events, k, events[k].p) || events[k].op.Lock?)
  }

  lemma {:induction false} CourseKnows(c: Course, events: seq<Event>, p: Port)
    ensures p in CourseOf(c, events).known <==> KnownBy(c, events, |events|, p)
    ensures p in CourseOf(c, events).gone <==> GoneBy(c, events, |events|, p)
  {
    if events != [] {
      var n := |events| - 1;
      CourseKnows(c, events[..n], p);
      assert forall i :: 0 <= i < n ==> events[..n][i] == events[i];
    }
  }

  /** Since event `j` led astray, or since the start when that is 0, nothing has set right. */
  ghost predicate AstraySince(c: Course, events: seq<Event>, j: nat) {
    && j <= |events| && (if j == 0 then c.astray else Misleads(c, events, j - 1))
    && forall k: nat :: j <= k < |events| ==> !Rights(c, events, k)
  }

  /** A course is astray exactly when its last event that leads astray, or its start, has been followed by none that sets right. */
  lemma {:induction false} AstrayIff(c: Course, events: seq<Event>)
    ensures CourseOf(c, events).astray <==> exists j: nat :: AstraySince(c, events, j)
  {
    if events == [] {
      assert c.astray ==> AstraySince(c, events, 0);
    } else {
      var n := |events| - 1;
      var rest := events[..n];
      AstrayIff(c, rest);
      LastTurn(c, events);
      forall k: nat | k < n
        ensures Misleads(c, events, k) == Misleads(c, rest, k) && Rights(c, events, k) == Rights(c, rest, k)
      {
        EarlierSame(c, events, n, k);
      }
      if Misleads(c, events, n) {
        assert AstraySince(c, events, n + 1);
      } else if CourseOf(c, events).astray {
        var j: nat :| AstraySince(c, rest, j);
        assert AstraySince(c, events, j);
      }
      if j: nat :| AstraySince(c, events, j) && j <= n {
        assert AstraySince(c, rest, j);
      }
    }
  }

  /** What the last event does to a course. */
  lemma LastTurn(c: Course, events: seq<Event>)
    requires events != []
    ensures var n := |events| - 1;
            CourseOf(c, events).astray <==> Misleads(c, events, n) || (CourseOf(c, events[..n]).astray && !Rights(c, events, n))
  {
    var n := |events| - 1;
    if events[n].Asks? {
      CourseKnows(c, events[..n], events[n].p);
      assert forall i :: 0 <= i < n ==> events[..n][i] == events[i];
    }
  }

  lemma EarlierSame(c: Course, events: seq<Event>, n: nat, k: nat)
    requires k < n <= |events|
    ensures Misleads(c, events, k) == Misleads(c, events[..n], k) && Rights(c, events, k) == Rights(c, events[..n], k)
  {
    assert forall i :: 0 <= i < n ==> events[..n][i] == events[i];
  }

  /** Event `k` is a request that sets the key or locks. */
  predicate Decides(c: Course, events: seq<Event>, k: nat)
    requires k < |events|
  {
    Heard(c, events, k) && (events[k].op.Sets() || events[k].op.Lock?)
  }

  /** Event `j` is the last that decides. */
  ghost predicate DecidesLast(c: Course, events: seq<Event>, j: nat) {
    j < |events| && Decides(c, events, j) && forall k: nat :: j < k < |events| ==> !Decides(c, events, k)
  }

  /** The standing of the key is what the last such request made it, or what it was when there is none. */
  lemma {:induction false} KeyIs(c: Course, events: seq<Event>)
    ensures (forall j: nat :: !DecidesLast(c, events, j)) ==> CourseOf(c, events).key == c.key
    ensures forall j: nat :: DecidesLast(c, events, j) ==> CourseOf(c, events).key == if events[j].op.Sets() then Set else Locked
  {
    if events != [] {
      var n := |events| - 1;
      KeyIs(c, events[..n]);
      KeyTurn(c, events);
      forall j: nat
        ensures DecidesLast(c, events, j) <==> (j == n && Decides(c, events, n)) || (DecidesLast(c, events[..n], j) && !Decides(c, events, n))
      {
        LastOn(c, events, n, j);
      }
      assert Decides(c, events, n) ==> DecidesLast(c, events, n);
    }
  }

  lemma KeyTurn(c: Course, events: seq<Event>)
    requires events != []
    ensures var n := |events| - 1;
            CourseOf(c, events).key == if Decides(c, events, n) then if events[n].op.Sets() then Set else Locked else CourseOf(c, events[..n]).key
  {
    var n := |events| - 1;
    if events[n].Asks? {
      CourseKnows(c, events[..n], events[n].p);
      assert forall i :: 0 <= i < n ==> events[..n][i] == events[i];
    }
  }

  lemma LastOn(c: Course, events: seq<Event>, n: nat, j: nat)
    requires n == |events| - 1
    ensures DecidesLast(c, events, j) <==> (j == n && Decides(c, events, n)) || (DecidesLast(c, events[..n], j) && !Decides(c, events, n))
  {
    assert forall i :: 0 <= i < n ==> events[..n][i] == events[i];
    assert forall k: nat :: k < n ==> Decides(c, events, k) == Decides(c, events[..n], k);
    if j < n && DecidesLast(c, events, j) {
      assert !Decides(c, events, n);
    }
  }

  /** How far the clock has moved on after `n` readings. */
  function Passed(delays: nat -> nat, n: nat): nat {
    if n == 0 then 0 else Passed(delays, n - 1) + delays(n - 1)
  }

  /** What a tab will end up believing: its newest queued message, else what it adopted. */
  predicate Word(queued: seq<Msg>, tab: Tab) {
    if queued != [] then queued[|queued| - 1].unlocked else tab.told
  }

  /** The moment until which it will believe the key held, at the earliest; 0 when its countdown is over. */
  function Until(queued: seq<Msg>, tab: Tab): int {
    if queued != [] then queued[|queued| - 1].posted + queued[|queued| - 1].remaining
    else if tab.unlocked then tab.deadline
    else 0
  }

  /** What a tab makes of a message that reaches it at `now`. */
  function Adopted(m: Msg, now: int): Tab {
    Tab(m.unlocked, m.unlocked, if m.unlocked then now + m.remaining else 0)
  }

  function Sent(queued: seq<Msg>, told: bool, m: Msg): seq<Msg> {
    if told then queued + [m] else queued
  }

  ghost predicate PostedBy(queue: map<Port, seq<Msg>>, clock: int) {
    forall p, i :: p in queue && 0 <= i < |queue[p]| ==> queue[p][i].posted <= clock
  }

  ghost predicate ToldFirst(tabs: map<Port, Tab>) {
    forall p :: p in tabs && tabs[p].unlocked ==> tabs[p].told
  }

  class Holder {
    const delays: nat -> nat
    const start: int
    var readings: nat
    var clock: int

    var held: bool
    var deadline: int
    var timer: bool
    var ports: set<Port>

    var gone: set<Port>
    var queue: map<Port, seq<Msg>>
    var tabs: map<Port, Tab>

    constructor (delays: nat -> nat, start: int)
      requires start > 0
      ensures Valid() && Agreement() && Timely()
      ensures !held && ports == {} && gone == {} && queue == map[] && tabs == map[] && clock == start && readings == 0
      ensures this.delays == delays && this.start == start
    {
      this.delays := delays;
      this.start := start;
      readings, clock := 0, start;
      held, deadline, timer := false, 0, false;
      ports, gone := {}, {};
      queue, tabs := map[], map[];
    }

    ghost predicate Valid()
      reads this
    {
      && ports <= queue.Keys == tabs.Keys && queue.Keys - gone <= ports
      && clock == start + Passed(delays, readings)
      && (!held ==> deadline == 0) && (timer <==> held) && clock > 0
      && ToldFirst(tabs) && PostedBy(queue, clock)
    }

    function Live(): set<Port>
      reads this
    {
      ports - gone
    }

    predicate LastWord(p: Port)
      requires p in queue && p in tabs
      reads this
    {
      Word(queue[p], tabs[p])
    }

    /** Every live tab is, or is about to be, told exactly whether the key is held. */
    ghost predicate Agreement()
      requires Valid()
      reads this
    {
      forall p :: p in Live() ==> LastWord(p) == held
    }

    function CountsTo(p: Port): int
      requires p in queue && p in tabs
      reads this
    {
      Until(queue[p], tabs[p])
    }

    /** If it will believe the key held, it will not stop believing it before the key expires. */
    ghost predicate TimelyFor(p: Port)
      requires p in queue && p in tabs
      reads this
    {
      LastWord(p) && clock < deadline ==> CountsTo(p) >= deadline
    }

    /** A tab told of the key just now counts to its deadline exactly, or has been told too late for it. */
    ghost predicate OnTime(p: Port)
      requires p in queue && p in tabs
      reads this
    {
      held && LastWord(p) ==> deadline <= CountsTo(p) && (CountsTo(p) == deadline || CountsTo(p) <= clock)
    }

    ghost predicate Timely()
      requires Valid()
      reads this
    {
      forall p :: p in Live() ==> TimelyFor(p)
    }

    /** No tab comes or goes or adopts anything; ports are only dropped, and only dead ones. */
    twostate predicate Framed()
      reads this
    {
      && gone == old(gone) && tabs == old(tabs) && queue.Keys == old(queue).Keys
      && ports <= old(ports) && Live() == old(Live()) && clock >= old(clock) && readings >= old(readings)
    }

    /** Everything about the tabs and ports but time stands still. */
    twostate predicate PortsStand()
      reads this
    {
      ports == old(ports) && gone == old(gone) && queue == old(queue) && tabs == old(tabs)
    }

    // ----------------------------------------------------------------- the worker

    /** `Date.now()`. */
    method Now() returns (t: int)
      modifies this`readings, this`clock
      ensures t == clock == old(clock) + delays(old(readings)) && readings == old(readings) + 1
    {
      clock := clock + delays(readings);
      readings := readings + 1;
      t := clock;
    }

    method DropDek()
      modifies this`held, this`deadline, this`timer
      ensures !held && deadline == 0 && !timer
    {
      timer := false;
      held := false;
      deadline := 0;
    }

    /** Drop the key and tell everyone, whoever asked. */
    method ClearDek()
      requires Valid()
      modifies this
      ensures Valid() && Framed() && !held
      ensures Agreement() && readings == old(readings)
      decreases if held then 1 else 0, if held then 0 else 4
    {
      DropDek();
      Broadcast(None);
    }

    /** The key, unless it is past its deadline, in which case looking at it drops it. */
    method GetDek() returns (there: bool)
      requires Valid()
      modifies this
      ensures Valid() && Framed() && there == held
      ensures if held then old(held) && deadline == old(deadline) && PortsStand()
              else if old(held) then Agreement()
              else PortsStand()
      // It is dropped exactly when it is overdue at this look.
      ensures if held then clock < deadline else old(held) ==> clock >= old(deadline)
      ensures old(held) ==> clock == old(clock) + delays(old(readings))
      ensures readings == old(readings) + if old(held) then 1 else 0
      decreases if held then 1 else 0, 1
    {
      if !held {
        return false;
      }
      var t := Now();
      if t >= deadline {
        ClearDek();
        return false;
      }
      return true;
    }

    /** The message says whether the key is held, and for how long. */
    ghost predicate Tells(m: Msg)
      reads this
    {
      m.unlocked == held && m.posted <= clock && (held ==> m.posted + m.remaining == if m.posted < deadline then deadline else m.posted)
    }

    method StateNow() returns (m: Msg)
      requires Valid()
      modifies this
      ensures Valid() && Framed()
      ensures Tells(m)
      ensures if held then old(held) && deadline == old(deadline) && PortsStand()
              else if old(held) then Agreement()
              else PortsStand()
      ensures old(held) && !held ==> clock >= old(deadline)
      ensures readings <= old(readings) + if old(held) then 2 else 0
      decreases if held then 1 else 0, 2
    {
      var there := GetDek();
      var remaining := 0;
      var posted := clock;
      if held {
        posted := Now();
        remaining := if deadline - posted > 0 then deadline - posted else 0;
      }
      m := Msg(there, remaining, posted);
    }

    /**
     Tell every tab but `except`. Reading the state may itself drop the key, and then everyone,
     `except` included, has been told by the time this goes on.
     */
    method Broadcast(except: Option<Port>)
      requires Valid()
      modifies this
      ensures Valid() && Framed()
      ensures if held then old(held) && deadline == old(deadline) else old(held) ==> clock >= old(deadline)
      ensures readings <= old(readings) + if old(held) then 2 else 0
      ensures forall p :: p in Live() && Some(p) != except ==> LastWord(p) == held && OnTime(p) && queue[p] != []
      ensures except.Some? && except.value in Live() ==>
                if held == old(held) then queue[except.value] == old(queue)[except.value] else !LastWord(except.value)
      decreases if held then 1 else 0, 3
    {
      var m := StateNow();
      PostAll(except, m);
    }

    method PostAll(except: Option<Port>, m: Msg)
      requires Valid() && m.posted <= clock
      modifies this`ports, this`queue
      ensures Valid() && ports <= old(ports) && Live() == old(Live()) && queue.Keys == old(queue).Keys
      ensures forall p :: p in Live() ==> queue[p] == Sent(old(queue[p]), Some(p) != except, m)
    {
      var todo := ports;
      while todo != {}
        invariant Valid() && queue.Keys == old(queue).Keys
        invariant todo <= ports <= old(ports) && Live() == old(Live())
        invariant forall p :: p in Live() ==> queue[p] == Sent(old(queue[p]), p !in todo && Some(p) != except, m)
        decreases todo
      {
        var p :| p in todo;
        todo := todo - {p};
        if except == Some(p) {
          continue;
        }
        Post(p, m);
      }
    }

    /** `postMessage`, which throws for a tab that has gone: the port is then dropped. */
    method Post(p: Port, m: Msg)
      requires Valid() && p in ports && m.posted <= clock
      modifies this`ports, this`queue
      ensures Valid() && queue.Keys == old(queue).Keys
      ensures if p in gone then ports == old(ports) - {p} && queue == old(queue)
              else ports == old(ports) && queue == old(queue)[p := old(queue)[p] + [m]]
    {
      if p in gone {
        ports := ports - {p};
      } else {
        queue := queue[p := queue[p] + [m]];
      }
    }

    method SetDek()
      requires Valid()
      modifies this`held, this`deadline, this`timer, this`readings, this`clock
      ensures Valid() && held && deadline == clock + TTL_MS
      ensures clock == old(clock) + delays(old(readings)) && readings == old(readings) + 1
    {
      DropDek();
      held := true;
      var t := Now();
      deadline := t + TTL_MS;
      timer := true;
    }

    /**
     What a request makes of the key. One that sets it leaves it held for twelve hours more, one
     that locks leaves none; else it is held exactly as before, unless it is by then overdue.
     */
    twostate predicate KeyFollows(op: Op)
      reads this
    {
      if op.Sets() then
        var setAt := old(clock) + delays(old(readings));
        clock >= setAt && if held then deadline == setAt + 43_200_000 else clock >= old(clock) + 43_200_000
      else if op.Lock? then !held
      else if held then old(held) && deadline == old(deadline)
      else old(held) ==> clock >= old(deadline)
    }

    /** One request against the held key. A failure is a reply; every reply carries the state. */
    method Handle(op: Op) returns (m: Msg)
      requires Valid()
      modifies this
      ensures Valid() && Framed()
      ensures Tells(m) && KeyFollows(op) && readings <= old(readings) + 3
      // Anyone who has not been told since stands exactly where they stood.
      ensures held ==> PortsStand()
      ensures !held ==> if old(held) || op.Sets() || op.Lock? then Agreement() else PortsStand()
    {
      match op
      case State => m := StateNow();
      case Create(minted) =>
        if minted {
          SetDek();
        }
        m := StateNow();
      case Unlock(unwrapped) =>
        if unwrapped {
          SetDek();
        }
        m := StateNow();
      case Lock =>
        ClearDek();
        m := StateNow();
      case Use =>
        var _ := GetDek();
        m := StateNow();
    }

    /**
     A message on a tab's port. The reply is posted unguarded: if it throws, the broadcast is
     never reached. A live tab's message sets every live tab right, whatever they believed; of a
     gone tab's message this says exactly whom it leaves wrong.
     */
    method OnMessage(p: Port, op: Op)
      requires Valid() && p in queue
      modifies this
      ensures Valid() && Framed() && KeyFollows(op) && readings <= old(readings) + 5
      ensures p !in gone ==> Agreement() && Timely() && forall q :: q in Live() ==> OnTime(q)
      ensures p in gone && held ==> (Agreement() <==> forall q :: q in Live() ==> old(LastWord(q)))
      ensures p in gone && held ==>
                (Timely() <==> forall q :: q in Live() && old(LastWord(q)) && clock < deadline ==> old(CountsTo(q)) >= deadline)
      ensures p in gone && !held ==> Timely() && (Agreement() <==> old(Agreement()) || old(held) || op.Sets() || op.Lock?)
      // So, where all was well: wrong about the key exactly when the request set it anew, ...
      ensures p in gone && old(Agreement()) ==> (Agreement() <==> !(held && !old(held)) || Live() == {})
      // ... and wrong about the time exactly when it set it at all and somebody counts to an earlier deadline.
      ensures p in gone && old(Timely()) ==>
                (Timely() <==> !(op.Sets() && held && clock < deadline &&
                                 exists q :: q in Live() && old(LastWord(q)) && old(CountsTo(q)) < deadline))
    {
      var reply := Handle(op);
      if p in gone {
        assert held ==> forall q :: q in Live() ==> LastWord(q) == old(LastWord(q)) && CountsTo(q) == old(CountsTo(q));
        assert PortsStand() ==> forall q :: q in Live() ==> LastWord(q) == old(LastWord(q));
        return;
      }
      assert p in Live();
      queue := queue[p := queue[p] + [reply]];
      Broadcast(Some(p));
    }

    /** A new tab is told the state, unless it has gone already. Nobody else is misled by it. */
    method Connect(p: Port)
      requires Valid() && p !in queue
      modifies this
      ensures Valid() && gone == old(gone) && queue.Keys == old(queue).Keys + {p} && KeyFollows(State)
      ensures clock >= old(clock) && old(readings) <= readings <= old(readings) + 2
      ensures Live() == old(Live()) + ({p} - gone)
      ensures p !in gone ==> LastWord(p) == held && OnTime(p)
      ensures Agreement() <==> old(Agreement()) || (old(held) && !held)
      ensures old(Timely()) || !held ==> Timely()
    {
      Open(p);
      Greet(p);
      assert forall q :: q in Live() ==> q == p || q in old(Live());
      assert held != old(held) ==> forall q :: q in Live() ==> LastWord(q) == held;
    }

    /** A port is taken in. What the others believe does not change. */
    method Open(p: Port)
      requires Valid() && p !in queue
      modifies this`ports, this`queue, this`tabs
      ensures Valid() && queue.Keys == old(queue).Keys + {p} && queue[p] == [] && tabs[p] == Tab(false, false, 0)
      ensures Live() == old(Live()) + ({p} - gone)
      ensures forall q :: q in old(Live()) ==> Believes(q)
    {
      ports := ports + {p};
      queue := queue[p := []];
      tabs := tabs[p := Tab(false, false, 0)];
    }

    /** Port `q` will end up believing just what it would have. */
    twostate predicate Believes(q: Port)
      requires q in queue && q in tabs && q in old(queue) && q in old(tabs)
      reads this
    {
      LastWord(q) == old(LastWord(q)) && CountsTo(q) == old(CountsTo(q))
    }

    /** The state is posted on a port of which nobody has heard yet; for a tab that has gone that throws. */
    method Greet(p: Port)
      requires Valid() && p in queue && queue[p] == [] && tabs[p] == Tab(false, false, 0)
      modifies this
      ensures Valid() && Framed() && KeyFollows(State) && readings <= old(readings) + 2
      ensures p !in gone ==> LastWord(p) == held && OnTime(p)
      ensures forall q :: q in Live() && q != p ==> if held == old(held) then Believes(q) else LastWord(q) == held
    {
      var m := StateNow();
      if p !in gone {
        queue := queue[p := queue[p] + [m]];
      }
    }

    /** The timer set with the key goes off. */
    method TimerFires()
      requires Valid() && timer
      modifies this
      ensures Valid() && Framed() && Agreement() && Timely() && !held
    {
      ClearDek();
    }

    // ------------------------------------------------------------------- the tabs

    /** The next queued message reaches the tab, which adopts it. What the tab will end up believing does not change. */
    method Deliver(p: Port)
      requires Valid() && p in Live() && queue[p] != []
      modifies this`queue, this`tabs, this`readings, this`clock
      ensures Valid() && clock >= old(clock) && queue.Keys == old(queue).Keys
      ensures tabs[p].told == tabs[p].unlocked == old(queue[p])[0].unlocked && queue[p] == old(queue[p])[1..]
      ensures tabs[p].deadline == if tabs[p].told then clock + old(queue[p])[0].remaining else 0
      ensures forall q :: q in Live() ==> LastWord(q) == old(LastWord(q)) && (old(TimelyFor(q)) ==> TimelyFor(q))
      ensures (Agreement() <==> old(Agreement())) && (old(Timely()) ==> Timely())
    {
      var m := queue[p][0];
      var t := Now();
      queue := queue[p := queue[p][1..]];
      tabs := tabs[p := Adopted(m, t)];
    }

    /** `isUnlocked` in the tab, which stops believing once its own countdown is over. */
    method IsUnlocked(p: Port) returns (r: bool)
      requires Valid() && p in Live()
      modifies this`tabs, this`readings, this`clock
      ensures Valid() && clock >= old(clock)
      ensures r <==> old(tabs[p].unlocked) && clock < old(tabs[p].deadline)
      ensures forall q :: q in Live() ==> LastWord(q) == old(LastWord(q)) && (old(TimelyFor(q)) ==> TimelyFor(q))
      ensures (Agreement() <==> old(Agreement())) && (old(Timely()) ==> Timely())
      // With nothing left to deliver and the last word right, the answer is right until the key expires.
      ensures queue[p] == [] && LastWord(p) == held && r ==> held
      ensures queue[p] == [] && LastWord(p) == held && old(TimelyFor(p)) && held && clock < deadline ==> r
      // A tab that counts to an earlier deadline denies a key that is still held.
      ensures queue[p] == [] && old(CountsTo(p)) <= clock < deadline && held ==> !r
    {
      if tabs[p].unlocked {
        var t := Now();
        if t >= tabs[p].deadline {
          tabs := tabs[p := tabs[p].(unlocked := false, deadline := 0)];
        }
      }
      r := tabs[p].unlocked;
    }

    /** A tab closes. Those left believe what they believed. */
    method TabGone(p: Port)
      requires Valid()
      modifies this`gone
      ensures Valid() && gone == old(gone) + {p} && Live() == old(Live()) - {p}
      ensures forall q :: q in Live() ==> LastWord(q) == old(LastWord(q)) && CountsTo(q) == old(CountsTo(q)) && (TimelyFor(q) <==> old(TimelyFor(q)))
      ensures (old(Agreement()) ==> Agreement()) && (old(Timely()) ==> Timely())
    {
      gone := gone + {p};
      forall q | q in Live()
        ensures LastWord(q) == old(LastWord(q)) && CountsTo(q) == old(CountsTo(q)) && (TimelyFor(q) <==> old(TimelyFor(q)))
      {
        assert old(q in Live());
      }
    }

    // ---------------------------------------------------------------------- runs

    /**
     The key since: as it was, unless overdue; or set, and then held for twelve hours and
     longer from the first moment on; or locked.
     */
    twostate predicate KeyStands(key: Standing)
      reads this
    {
      match key
      case AsBefore => if held then old(held) && deadline == old(deadline) else old(held) ==> clock >= old(deadline)
      case Set => if held then deadline >= old(clock) + 43_200_000 else clock >= old(clock) + 43_200_000
      case Locked => !held
    }

    /** The ports are those of the course, and unless it is astray everyone is, or is about to be, right. */
    ghost predicate Follows(c: Course)
      requires Valid()
      reads this
    {
      queue.Keys == c.known && gone == c.gone && (!c.astray ==> Agreement() && Timely())
    }

    /** The timer of the key is due, or it is too early for it. */
    method TimerLooks()
      requires Valid()
      modifies this
      ensures Valid() && Framed() && KeyFollows(State)
      ensures (old(Agreement()) ==> Agreement()) && (old(Timely()) ==> Timely())
    {
      var t := Now();
      if timer && t >= deadline {
        TimerFires();
      } else {
        assert forall q :: q in Live() ==> Believes(q) && (old(TimelyFor(q)) ==> TimelyFor(q));
      }
    }

    /** Whatever is no request leaves nobody worse informed. */
    method Pass(e: Event)
      requires Valid() && !e.Asks?
      modifies this
      ensures Valid() && clock >= old(clock) && KeyFollows(State)
      ensures queue.Keys == old(queue).Keys + (if e.Connects? then {e.p} else {})
      ensures gone == old(gone) + (if e.Closes? then {e.p} else {})
      ensures (old(Agreement()) ==> Agreement()) && (old(Timely()) ==> Timely())
    {
      match e
      case Connects(p) =>
        if p !in queue {
          Connect(p);
        }
      case Delivers(p) =>
        if p in Live() && queue[p] != [] {
          Deliver(p);
        }
      case Looks(p) =>
        if p in Live() {
          var _ := IsUnlocked(p);
        }
      case Closes(p) => TabGone(p);
      case TimerDue => TimerLooks();
    }

    method Happen(e: Event, ghost c: Course)
      requires Valid() && Follows(c)
      modifies this
      ensures Valid() && Follows(Onward(c, e)) && clock >= old(clock)
      ensures if e.Asks? && e.p in old(queue) then KeyFollows(e.op) else KeyFollows(State)
    {
      if e.Asks? {
        if e.p in queue {
          OnMessage(e.p, e.op);
        }
      } else {
        Pass(e);
      }
    }

    /**
     Any events in any order, from any state. The tabs are right about the key, and on time,
     unless a tab that had gone set it and no live tab has asked anything since. And the key is
     neither lost early nor kept after a lock.
     */
    method Run(events: seq<Event>)
      requires Valid()
      modifies this
      ensures Valid() && clock >= old(clock)
      ensures var c := CourseOf(Course(old(queue).Keys, old(gone), !old(Agreement() && Timely()), AsBefore), events);
              Follows(c) && KeyStands(c.key)
    {
      ghost var c := Course(queue.Keys, gone, !(Agreement() && Timely()), AsBefore);
      ghost var c0 := c;
      for i := 0 to |events|
        invariant Valid() && clock >= old(clock)
        invariant c == CourseOf(c0, events[..i]) && Follows(c) && KeyStands(c.key)
      {
        assert events[..i + 1][..i] == events[..i];
        Happen(events[i], c);
        c := Onward(c, events[i]);
      }
      assert events[..|events|] == events;
    }
  }

  function One(k: nat): nat {
    1
  }

  lemma {:induction false} OneEach(n: nat)
    ensures Passed(One, n) == n
  {
    if n > 0 {
      OneEach(n - 1);
    }
  }

  method TwoTabs() returns (h: Holder)
    ensures fresh(h) && h.Valid() && h.delays == One && h.start == 1 && h.readings <= 4
    ensures h.Live() == {1, 2} && h.gone == {} && !h.held && h.Agreement() && h.Timely()
  {
    h := new Holder(One, 1);
    h.Connect(1);
    h.Connect(2);
  }

  /** Two tabs, one of which goes just as its request is on the way: the other takes the key for gone. */
  method GoneTabMisleads() returns (h: Holder)
    ensures fresh(h) && h.Valid() && h.held && h.clock < h.deadline
    ensures h.Live() == {2} && !h.LastWord(2) && !h.Agreement()
  {
    h := TwoTabs();
    h.TabGone(1);
    h.OnMessage(1, Create(true));
    OneEach(h.readings);
    assert 2 in h.Live();
  }

  /** Two tabs that both know of the key. */
  method TwoTold() returns (h: Holder)
    ensures fresh(h) && h.Valid() && h.delays == One && h.start == 1 && h.readings <= 9
    ensures h.Live() == {1, 2} && h.gone == {} && h.held && h.Agreement() && h.OnTime(2) && h.deadline <= h.clock + TTL_MS
  {
    h := TwoTabs();
    h.OnMessage(2, Create(true));
    OneEach(h.readings);
    assert 2 in h.Live();
  }

  /** Then one goes as it asks for the key again: the other will deny it while it is still held. */
  method GoneTabHastens() returns (h: Holder)
    ensures fresh(h) && h.Valid() && h.held && h.clock < h.deadline
    ensures h.Live() == {2} && h.LastWord(2) && h.CountsTo(2) < h.deadline && h.Agreement() && !h.Timely()
  {
    h := TwoTold();
    assert 2 in h.Live() && h.LastWord(2);
    OneEach(h.readings);
    h.TabGone(1);
    h.OnMessage(1, Create(true));
    OneEach(h.readings);
    assert 2 in h.Live();
  }
}
