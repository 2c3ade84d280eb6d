// The MySQL connection pool of log_time_server's mysqlPool.cc: each region that holds
// _queueLock is one step, and steps of all threads interleave freely.

module PoolProtocol {
  import opened Helpers

  /** An idle connection and the clock reading refreshAliveTime gave it. */
  datatype Entry<C> = Entry(conn: C, since: int)

  datatype Config = Config(initCount: int, maxCount: int, maxIdleTime: int)

  datatype Pool<C> = Pool(
    idle: seq<Entry<C>>,  // _connQueue, front first
    out: set<C>,          // handed to a caller and not yet returned by its deleter
    gone: set<C>,         // closed or deleted by the pool
    current: int,         // _currentCount
    now: int              // the last clock reading; the clock never goes back
  )

  /** `front()` of an empty queue is undefined; a step that comes to it has no next state. */
  datatype Outcome<C> = Ok(pool: Pool<C>) | HeadOfEmptyQueue

  datatype Step<C> =
    | Produce(added: C, stamp: int)            // the producer, once the queue is empty
    | Get(dead: set<C>)                        // getOneConnect, once the queue is not empty
    | Return(conn: C, stamp: int)              // the deleter of a handed-out connection
    | Scan(dead: set<C>, clock: seq<int>)      // one round of the scanner

  function Conns<C>(idle: seq<Entry<C>>): set<C> {
    set e | e in idle :: e.conn
  }

  /** Close or delete the front connection. */
  function DropFront<C(==)>(p: Pool<C>): Pool<C>
    requires p.idle != []
  {
    p.(idle := p.idle[1..], gone := p.gone + {p.idle[0].conn}, current := p.current - 1)
  }

  /** `while (!isEmpty() && poolFront()->mysqlPing())`: dead connections at the front go. */
  function DropDead<C(==)>(p: Pool<C>, dead: set<C>): Pool<C>
    decreases |p.idle|
  {
    if p.idle != [] && p.idle[0].conn in dead then DropDead(DropFront(p), dead) else p
  }

  predicate Expired<C>(config: Config, e: Entry<C>, reading: int) {
    reading - e.since >= config.maxIdleTime * 1000
  }

  /** The scanner's idle loop; clock[k] is what the k-th call of getAliveeTime reads. */
  function Evict<C(==)>(config: Config, p: Pool<C>, clock: seq<int>): Outcome<C>
    requires |clock| >= |p.idle|
    decreases |p.idle|
  {
    if p.current <= config.initCount then Ok(p)
    else if p.idle == [] then HeadOfEmptyQueue
    else if Expired(config, p.idle[0], clock[0]) then Evict(config, DropFront(p).(now := clock[0]), clock[1..])
    else Ok(p.(now := clock[0]))
  }

  ghost predicate ClockFrom(now: int, clock: seq<int>) {
    && (forall i | 0 <= i < |clock| :: now <= clock[i])
    && (forall i, j | 0 <= i < j < |clock| :: clock[i] <= clock[j])
  }

  ghost predicate Enabled<C>(p: Pool<C>, step: Step<C>) {
    match step
    case Produce(added, stamp) =>
      p.idle == [] && added !in p.out && added !in p.gone && p.now <= stamp
    case Get(_) => p.idle != []
    case Return(conn, stamp) => conn in p.out && p.now <= stamp
    case Scan(_, clock) => |clock| >= |p.idle| && ClockFrom(p.now, clock)
  }

  lemma DropDeadShortens<C>(p: Pool<C>, dead: set<C>)
    ensures |DropDead(p, dead).idle| <= |p.idle| && DropDead(p, dead).now == p.now
    decreases |p.idle|
  {
    if p.idle != [] && p.idle[0].conn in dead {
      DropDeadShortens(DropFront(p), dead);
    }
  }

  ghost function Next<C>(config: Config, p: Pool<C>, step: Step<C>): Outcome<C>
    requires Enabled(p, step)
  {
    match step
    case Produce(added, stamp) =>
      if p.current < config.maxCount
      then Ok(p.(idle := p.idle + [Entry(added, stamp)], current := p.current + 1, now := stamp))
      else Ok(p)
    case Get(dead) =>
      var q := DropDead(p, dead);
      if q.idle == [] then HeadOfEmptyQueue
      else Ok(q.(idle := q.idle[1..], out := q.out + {q.idle[0].conn}))
    case Return(conn, stamp) =>
      Ok(p.(idle := p.idle + [Entry(conn, stamp)], out := p.out - {conn}, now := stamp))
    case Scan(dead, clock) =>
      DropDeadShortens(p, dead);
      Evict(config, DropDead(p, dead), clock)
  }

  /** The constructor ran: of initCount attempts, some connected. */
  ghost predicate Initial<C>(config: Config, p: Pool<C>) {
    && p.out == {} && p.gone == {} && p.current == |p.idle| && p.current <= Max(0, config.initCount)
    && DistinctConns(p.idle) && Sorted(p.idle, p.now)
  }

  ghost predicate DistinctConns<C>(idle: seq<Entry<C>>) {
    forall i, j | 0 <= i < j < |idle| :: idle[i].conn != idle[j].conn
  }

  /** The queue is in order of idle-start time, and none lies in the future. */
  ghost predicate Sorted<C>(idle: seq<Entry<C>>, now: int) {
    && (forall i, j | 0 <= i < j < |idle| :: idle[i].since <= idle[j].since)
    && (forall i | 0 <= i < |idle| :: idle[i].since <= now)
  }

  ghost predicate Inv<C>(p: Pool<C>) {
    // the counter is the number of connections there are
    && p.current == |p.idle| + |p.out|
    // every connection is in one place, once
    && DistinctConns(p.idle)
    && (forall e | e in p.idle :: e.conn !in p.out && e.conn !in p.gone)
    && p.out !! p.gone
    && Sorted(p.idle, p.now)
  }

  lemma InitialInv<C>(config: Config, p: Pool<C>)
    requires Initial(config, p)
    ensures Inv(p)
  {
  }

  lemma DropFrontKeepsInv<C>(p: Pool<C>)
    requires Inv(p) && p.idle != []
    ensures Inv(DropFront(p))
  {
  }

  /** What the removal of dead connections takes: the dead prefix of the queue, no more. */
  lemma {:induction false} DropDeadExact<C>(p: Pool<C>, dead: set<C>) returns (k: nat)
    requires Inv(p)
    ensures var q := DropDead(p, dead);
            && k <= |p.idle| && q.idle == p.idle[k..] && q.current == p.current - k
            && (forall i | 0 <= i < k :: p.idle[i].conn in dead)
            && (k < |p.idle| ==> p.idle[k].conn !in dead)
            && q.out == p.out && q.gone == p.gone + Conns(p.idle[..k]) && q.now == p.now
            && Inv(q)
    decreases |p.idle|
  {
    if p.idle != [] && p.idle[0].conn in dead {
      DropFrontKeepsInv(p);
      k := DropDeadExact(DropFront(p), dead);
      ConnsCons(p.idle, k);
      k := k + 1;
    } else {
      k := 0;
    }
  }

  lemma ConnsFront<C>(idle: seq<Entry<C>>)
    requires idle != []
    ensures Conns(idle) == {idle[0].conn} + Conns(idle[1..])
  {
    assert idle == [idle[0]] + idle[1..];
  }

  lemma ConnsCons<C>(idle: seq<Entry<C>>, k: nat)
    requires k < |idle|
    ensures Conns(idle[..k + 1]) == {idle[0].conn} + Conns(idle[1..][..k])
  {
  }

  /** What the scanner's idle loop takes, whatever the order of the queue: k connections from
      the front, each expired when it was looked at. */
  lemma {:induction false} EvictPrefix<C>(config: Config, p: Pool<C>, clock: seq<int>) returns (k: nat)
    requires |clock| >= |p.idle| && ClockFrom(p.now, clock)
    requires Evict(config, p, clock).Ok?
    ensures var q := Evict(config, p, clock).pool;
            && k <= |p.idle| && q.idle == p.idle[k..] && q.current == p.current - k
            && q.out == p.out && q.gone == p.gone + Conns(p.idle[..k]) && q.now >= p.now
            && (forall i | 0 <= i < k :: Expired(config, p.idle[i], clock[i]))
            && (k > 0 ==> q.current >= config.initCount)
            && (q.current <= config.initCount || (k < |p.idle| && !Expired(config, p.idle[k], clock[k])))
    decreases |p.idle|
  {
    if p.current > config.initCount && Expired(config, p.idle[0], clock[0]) {
      var q := DropFront(p).(now := clock[0]);
      k := EvictPrefix(config, q, clock[1..]);
      ConnsCons(p.idle, k);
      k := k + 1;
      assert forall i | 1 <= i < k :: p.idle[i] == q.idle[i - 1] && clock[i] == clock[1..][i - 1];
    } else {
      k := 0;
    }
  }

  lemma {:induction false} DropPrefixKeepsInv<C>(p: Pool<C>, k: nat, now: int)
    requires Inv(p) && k <= |p.idle| && p.now <= now
    ensures Inv(p.(idle := p.idle[k..], gone := p.gone + Conns(p.idle[..k]), current := p.current - k, now := now))
    decreases k
  {
  }

  /** Because the queue is sorted, the loop's stop is exact: no more than initCount connections
      are left, or none of those still idle had expired when the head was looked at. */
  lemma EvictExact<C>(config: Config, p: Pool<C>, clock: seq<int>) returns (k: nat)
    requires Inv(p) && |clock| >= |p.idle| && ClockFrom(p.now, clock)
    requires Evict(config, p, clock).Ok?
    ensures var q := Evict(config, p, clock).pool;
            && Inv(q) && q.out == p.out && p.gone <= q.gone
            && k <= |p.idle| && q.idle == p.idle[k..] && q.current == p.current - k
            && (forall i | 0 <= i < k :: Expired(config, p.idle[i], clock[i]) && p.idle[i].conn in q.gone)
            && (k > 0 ==> q.current >= config.initCount)
            && (q.current <= config.initCount
                || (k < |p.idle| && forall e | e in q.idle :: !Expired(config, e, clock[k])))
  {
    k := EvictPrefix(config, p, clock);
    var q := Evict(config, p, clock).pool;
    DropPrefixKeepsInv(p, k, q.now);
    assert q == p.(idle := p.idle[k..], gone := p.gone + Conns(p.idle[..k]), current := p.current - k, now := q.now);
    forall i | 0 <= i < k
      ensures p.idle[i].conn in q.gone
    {
      assert p.idle[..k][i] in p.idle[..k];
    }
  }

  lemma AllExpiredCons<C>(config: Config, idle: seq<Entry<C>>, clock: seq<int>)
    requires idle != [] && |clock| >= |idle| && Expired(config, idle[0], clock[0])
    ensures (forall i | 0 <= i < |idle| :: Expired(config, idle[i], clock[i])) <==>
            forall i | 0 <= i < |idle[1..]| :: Expired(config, idle[1..][i], clock[1..][i])
  {
    assert forall i | 1 <= i < |idle| :: idle[i] == idle[1..][i - 1] && clock[i] == clock[1..][i - 1];
  }

  /** The scanner reads the head of an empty queue exactly when more than initCount
      connections are checked out and every idle one, at its turn, has expired. */
  lemma {:induction false} EvictFaultIff<C>(config: Config, p: Pool<C>, clock: seq<int>)
    requires Inv(p) && |clock| >= |p.idle| && ClockFrom(p.now, clock)
    ensures Evict(config, p, clock).HeadOfEmptyQueue? <==>
            |p.out| > config.initCount && forall i | 0 <= i < |p.idle| :: Expired(config, p.idle[i], clock[i])
    decreases |p.idle|
  {
    if p.current > config.initCount && p.idle != [] && Expired(config, p.idle[0], clock[0]) {
      var q := DropFront(p).(now := clock[0]);
      DropFrontKeepsInv(p);
      EvictFaultIff(config, q, clock[1..]);
      AllExpiredCons(config, p.idle, clock);
    }
  }

  /** getOneConnect reads the head of an empty queue exactly when every idle connection is dead. */
  lemma GetFaultIff<C>(config: Config, p: Pool<C>, dead: set<C>)
    requires Inv(p) && p.idle != []
    ensures Next(config, p, Get(dead)).HeadOfEmptyQueue? <==> forall e | e in p.idle :: e.conn in dead
  {
    var k := DropDeadExact(p, dead);
    if k < |p.idle| {
      assert p.idle[k] in p.idle;
    }
  }

  lemma AllExpiredBehind<C>(config: Config, idle: seq<Entry<C>>, clock: seq<int>, d: nat)
    requires d <= |idle| <= |clock|
    ensures (forall i | 0 <= i < |idle[d..]| :: Expired(config, idle[d..][i], clock[i])) <==>
            forall i | 0 <= i < |idle| - d :: clock[i] - idle[d + i].since >= config.maxIdleTime * 1000
  {
    assert forall i | 0 <= i < |idle| - d :: idle[d..][i] == idle[d + i];
  }

  lemma ScanFaultsBehind<C>(config: Config, p: Pool<C>, dead: set<C>, clock: seq<int>, d: nat)
    requires Inv(p) && |clock| >= |p.idle| && ClockFrom(p.now, clock)
    requires d <= |p.idle| && DropDead(p, dead).idle == p.idle[d..] && DropDead(p, dead).out == p.out
    requires Inv(DropDead(p, dead))
    ensures Next(config, p, Scan(dead, clock)).HeadOfEmptyQueue? <==>
            |p.out| > config.initCount &&
            forall i | 0 <= i < |p.idle[d..]| :: Expired(config, p.idle[d..][i], clock[i])
  {
    DropDeadShortens(p, dead);
    EvictFaultIff(config, DropDead(p, dead), clock);
  }

  /** The scanner as a whole: after the d dead connections at the front it reads the head of an
      empty queue exactly when more than initCount connections are checked out and all the rest
      of the queue expires, each at its turn. So it is safe with at most initCount checked out. */
  lemma ScanFaultIff<C>(config: Config, p: Pool<C>, dead: set<C>, clock: seq<int>) returns (d: nat)
    requires Inv(p) && |clock| >= |p.idle| && ClockFrom(p.now, clock)
    ensures d <= |p.idle| && (forall i | 0 <= i < d :: p.idle[i].conn in dead)
    ensures d < |p.idle| ==> p.idle[d].conn !in dead
    ensures Next(config, p, Scan(dead, clock)).HeadOfEmptyQueue? <==>
            && |p.out| > config.initCount
            && forall i | 0 <= i < |p.idle| - d :: clock[i] - p.idle[d + i].since >= config.maxIdleTime * 1000
  {
    d := DropDeadExact(p, dead);
    ScanFaultsBehind(config, p, dead, clock, d);
    AllExpiredBehind(config, p.idle, clock, d);
  }

  /** One round of the scanner: it takes the d dead connections at the front and then the k that
      have expired, and where it stops nothing more was due. */
  lemma ScanExact<C>(config: Config, p: Pool<C>, dead: set<C>, clock: seq<int>) returns (d: nat, k: nat)
    requires Inv(p) && |clock| >= |p.idle| && ClockFrom(p.now, clock)
    requires Next(config, p, Scan(dead, clock)).Ok?
    ensures var q := Next(config, p, Scan(dead, clock)).pool;
            && d + k <= |p.idle| && q.idle == p.idle[d + k..] && q.current == p.current - d - k && q.out == p.out
            && (forall i | 0 <= i < d :: p.idle[i].conn in dead)
            && (d < |p.idle| ==> p.idle[d].conn !in dead)
            && (forall i | 0 <= i < k ::
                  clock[i] - p.idle[d + i].since >= config.maxIdleTime * 1000 && p.idle[d + i].conn in q.gone)
            && (k > 0 ==> q.current >= config.initCount)
            && (q.current <= config.initCount
                || (d + k < |p.idle| && forall e | e in q.idle :: clock[k] - e.since < config.maxIdleTime * 1000))
  {
    d := DropDeadExact(p, dead);
    var rest := DropDead(p, dead);
    k := EvictExact(config, rest, clock);
    assert forall i | 0 <= i < k :: rest.idle[i] == p.idle[d + i];
  }

  /** The connection handed out was idle, is alive, and is the first such in the queue. */
  lemma GetHandsFirstLive<C>(config: Config, p: Pool<C>, dead: set<C>) returns (k: nat)
    requires Inv(p) && p.idle != [] && Next(config, p, Get(dead)).Ok?
    ensures k < |p.idle| && p.idle[k].conn !in dead && forall i | 0 <= i < k :: p.idle[i].conn in dead
    ensures var q := Next(config, p, Get(dead)).pool;
            && q.out == p.out + {p.idle[k].conn} && q.idle == p.idle[k + 1..]
            && q.gone == p.gone + Conns(p.idle[..k])
            && p.idle[k].conn !in p.out && p.idle[k].conn !in q.gone
  {
    k := DropDeadExact(p, dead);
    var q := DropDead(p, dead);
    assert q.idle[0] in q.idle && p.idle[k] in p.idle;
  }

  lemma StepKeepsInv<C>(config: Config, p: Pool<C>, step: Step<C>)
    requires Inv(p) && Enabled(p, step) && Next(config, p, step).Ok?
    ensures Inv(Next(config, p, step).pool)
  {
    match step
    case Produce(added, stamp) =>
    case Get(dead) =>
      var k := DropDeadExact(p, dead);
      HandOutKeepsInv(DropDead(p, dead));
    case Return(conn, stamp) => ReturnKeepsInv(p, conn, stamp);
    case Scan(dead, clock) =>
      var k := DropDeadExact(p, dead);
      k := EvictExact(config, DropDead(p, dead), clock);
  }

  lemma HandOutKeepsInv<C>(q: Pool<C>)
    requires Inv(q) && q.idle != []
    ensures Inv(q.(idle := q.idle[1..], out := q.out + {q.idle[0].conn}))
  {
  }

  /** Every push carries a reading no earlier than any before it, so it keeps the order. */
  lemma PushKeepsOrder<C>(idle: seq<Entry<C>>, now: int, e: Entry<C>)
    requires DistinctConns(idle) && Sorted(idle, now) && now <= e.since
    requires forall d | d in idle :: d.conn != e.conn
    ensures DistinctConns(idle + [e]) && Sorted(idle + [e], e.since)
  {
  }

  lemma ReturnKeepsInv<C>(p: Pool<C>, conn: C, stamp: int)
    requires Inv(p) && conn in p.out && p.now <= stamp
    ensures Inv(p.(idle := p.idle + [Entry(conn, stamp)], out := p.out - {conn}, now := stamp))
  {
  }

  // ---- whole runs ----

  ghost predicate IsRun<C>(config: Config, states: seq<Pool<C>>, steps: seq<Step<C>>) {
    && |states| == |steps| + 1
    && forall i | 0 <= i < |steps| ::
         Enabled(states[i], steps[i]) && Next(config, states[i], steps[i]) == Ok(states[i + 1])
  }

  lemma StepOfRun<C>(config: Config, states: seq<Pool<C>>, steps: seq<Step<C>>, i: nat)
    requires IsRun(config, states, steps) && i < |steps|
    ensures Enabled(states[i], steps[i]) && Next(config, states[i], steps[i]) == Ok(states[i + 1])
  {
  }

  /** Conservation, sole ownership and order hold in every reachable state. */
  lemma {:induction false} RunKeepsInv<C>(config: Config, states: seq<Pool<C>>, steps: seq<Step<C>>, i: nat)
    requires IsRun(config, states, steps) && Initial(config, states[0]) && i <= |steps|
    ensures Inv(states[i])
  {
    if i == 0 {
      InitialInv(config, states[0]);
    } else {
      RunKeepsInv(config, states, steps, i - 1);
      StepOfRun(config, states, steps, i - 1);
      StepKeepsInv(config, states[i - 1], steps[i - 1]);
    }
  }

  lemma StepKeepsGone<C>(config: Config, p: Pool<C>, step: Step<C>)
    requires Inv(p) && Enabled(p, step) && Next(config, p, step).Ok?
    ensures p.gone <= Next(config, p, step).pool.gone
  {
    match step
    case Get(dead) => var k := DropDeadExact(p, dead);
    case Scan(dead, clock) =>
      var k := DropDeadExact(p, dead);
      k := EvictExact(config, DropDead(p, dead), clock);
    case _ =>
  }

  /** A connection the pool has closed or deleted is never in the queue and never handed out
      again. */
  lemma {:induction false} GoneForGood<C>(config: Config, states: seq<Pool<C>>, steps: seq<Step<C>>,
                                          i: nat, j: nat, conn: C)
    requires IsRun(config, states, steps) && Initial(config, states[0]) && i <= j <= |steps|
    requires conn in states[i].gone
    ensures conn in states[j].gone && conn !in states[j].out && conn !in Conns(states[j].idle)
    decreases j - i
  {
    RunKeepsInv(config, states, steps, j);
    if i < j {
      GoneForGood(config, states, steps, i, j - 1, conn);
      RunKeepsInv(config, states, steps, j - 1);
      StepOfRun(config, states, steps, j - 1);
      StepKeepsGone(config, states[j - 1], steps[j - 1]);
    }
  }

  ghost predicate AllAlive<C>(step: Step<C>) {
    match step
    case Get(dead) => dead == {}
    case Scan(dead, _) => dead == {}
    case _ => true
  }

  lemma StepPopulation<C>(config: Config, p: Pool<C>, step: Step<C>)
    requires Inv(p) && Enabled(p, step) && Next(config, p, step).Ok?
    ensures var q := Next(config, p, step).pool;
            && q.current <= Max(p.current, config.maxCount)
            && (AllAlive(step) ==> q.current >= Min(p.current, config.initCount))
  {
    match step
    case Get(dead) => var k := DropDeadExact(p, dead);
    case Scan(dead, clock) =>
      var k := DropDeadExact(p, dead);
      var l := EvictExact(config, DropDead(p, dead), clock);
    case _ =>
  }

  /** The population never exceeds what connected at the start and maxCount; and as long as
      no ping finds a dead connection, it does not fall below initCount, or below what
      connected at the start if that was less. */
  lemma {:induction false} PopulationBounds<C>(config: Config, states: seq<Pool<C>>, steps: seq<Step<C>>, i: nat)
    requires IsRun(config, states, steps) && Initial(config, states[0]) && i <= |steps|
    ensures states[i].current <= Max(states[0].current, config.maxCount)
    ensures (forall step | step in steps :: AllAlive(step)) ==>
              states[i].current >= Min(states[0].current, config.initCount)
  {
    if i > 0 {
      PopulationBounds(config, states, steps, i - 1);
      RunKeepsInv(config, states, steps, i - 1);
      StepOfRun(config, states, steps, i - 1);
      StepPopulation(config, states[i - 1], steps[i - 1]);
      assert steps[i - 1] in steps;
    }
  }

  /** The producer: on an empty queue it makes a connection exactly below maxCount, and queues
      it with its stamp; otherwise it changes nothing. */
  lemma ProduceExact<C>(config: Config, p: Pool<C>, added: C, stamp: int)
    requires Enabled(p, Produce(added, stamp))
    ensures Next(config, p, Produce(added, stamp)).Ok?
    ensures var q := Next(config, p, Produce(added, stamp)).pool;
            && (p.current < config.maxCount ==>
                  q.current == p.current + 1 && q.idle == [Entry(added, stamp)] && q.out == p.out && q.gone == p.gone)
            && (p.current >= config.maxCount ==> q == p)
  {
  }

  /** What the producer makes, the next caller gets, if it is alive. */
  lemma ProducedIsHandedOut<C>(config: Config, p: Pool<C>, added: C, stamp: int, dead: set<C>)
    returns (states: seq<Pool<C>>)
    requires Enabled(p, Produce(added, stamp)) && p.current < config.maxCount && added !in dead
    ensures IsRun(config, states, [Produce(added, stamp), Get(dead)]) && states[0] == p
    ensures states[2] == p.(out := p.out + {added}, current := p.current + 1, now := stamp)
  {
    var q := Next(config, p, Produce(added, stamp)).pool;
    assert DropDead(q, dead) == q;
    states := [p, q, Next(config, q, Get(dead)).pool];
  }

  lemma RunsAppend<C>(config: Config, states: seq<Pool<C>>, steps: seq<Step<C>>,
                      later: seq<Pool<C>>, rest: seq<Step<C>>)
    requires IsRun(config, states, steps) && IsRun(config, later, rest) && states[|steps|] == later[0]
    ensures IsRun(config, states + later[1..], steps + rest)
  {
    var all, both := states + later[1..], steps + rest;
    forall i | 0 <= i < |both|
      ensures Enabled(all[i], both[i]) && Next(config, all[i], both[i]) == Ok(all[i + 1])
    {
      if i < |steps| {
        assert Enabled(states[i], steps[i]) && Next(config, states[i], steps[i]) == Ok(states[i + 1]);
      } else {
        var j := i - |steps|;
        assert all[i] == later[j];
        assert Enabled(later[j], rest[j]) && Next(config, later[j], rest[j]) == Ok(later[j + 1]);
      }
    }
  }

  /** While callers keep all they get, the pool serves them up to maxCount: any new connections
      that still fit are made and handed out, one after the other. */
  lemma {:induction false} ServesUpToMaxCount<C>(config: Config, p: Pool<C>, added: seq<C>)
    returns (states: seq<Pool<C>>, steps: seq<Step<C>>)
    requires p.idle == [] && p.current + |added| <= config.maxCount
    requires Distinct(added) && forall c | c in added :: c !in p.out && c !in p.gone
    ensures IsRun(config, states, steps) && states[0] == p
    ensures states[|steps|] == p.(out := p.out + (set c | c in added), current := p.current + |added|)
    decreases |added|
  {
    if added == [] {
      states, steps := [p], [];
    } else {
      var c := added[0];
      states := ProducedIsHandedOut(config, p, c, p.now, {});
      steps := [Produce(c, p.now), Get({})];
      var q := states[2];
      assert forall i | 0 <= i < |added| - 1 :: added[1..][i] == added[i + 1];
      var later, rest := ServesUpToMaxCount(config, q, added[1..]);
      RunsAppend(config, states, steps, later, rest);
      assert (set x | x in added) == {c} + set x | x in added[1..];
      states, steps := states + later[1..], steps + rest;
    }
  }

  /** This step puts e at the end of the queue. */
  predicate Pushes<C(==)>(step: Step<C>, e: Entry<C>) {
    step == Produce(e.conn, e.since) || step == Return(e.conn, e.since)
  }

  lemma StepPushes<C>(config: Config, p: Pool<C>, step: Step<C>, e: Entry<C>)
    requires Inv(p) && Enabled(p, step) && Next(config, p, step).Ok?
    requires e in Next(config, p, step).pool.idle && e !in p.idle
    ensures Pushes(step, e) && Next(config, p, step).pool.idle == p.idle + [e]
  {
    match step
    case Get(dead) =>
      var k := DropDeadExact(p, dead);
    case Scan(dead, clock) =>
      var k := DropDeadExact(p, dead);
      k := EvictExact(config, DropDead(p, dead), clock);
    case _ =>
  }

  /** What the stamps mean, in every run: a queued connection has been idle, with this stamp,
      ever since the producer or its last user's return put it at the end of the queue at just
      that time, or from the start. So what ScanExact says of stamps it says of idle times. */
  lemma {:induction false} IdleSinceItsStamp<C>(config: Config, states: seq<Pool<C>>, steps: seq<Step<C>>,
                                                i: nat, e: Entry<C>) returns (j: nat)
    requires IsRun(config, states, steps) && Initial(config, states[0]) && i <= |steps| && e in states[i].idle
    ensures j <= i && forall k | j <= k <= i :: e in states[k].idle
    ensures j > 0 ==> Pushes(steps[j - 1], e) && states[j].idle == states[j - 1].idle + [e]
  {
    if i == 0 {
      j := 0;
    } else {
      RunKeepsInv(config, states, steps, i - 1);
      StepOfRun(config, states, steps, i - 1);
      if e in states[i - 1].idle {
        j := IdleSinceItsStamp(config, states, steps, i - 1, e);
      } else {
        StepPushes(config, states[i - 1], steps[i - 1], e);
        j := i;
      }
    }
  }

  /** The fault of getOneConnect is reachable at once: the only connection has died before the
      first call. */
  lemma GetFaultIsReachable(c: nat) returns (states: seq<Pool<nat>>, steps: seq<Step<nat>>)
    ensures var config := Config(1, 1, 60);
            && IsRun(config, states, steps) && Initial(config, states[0])
            && Enabled(states[|steps|], Get({c}))
            && Next(config, states[|steps|], Get({c})) == HeadOfEmptyQueue
  {
    var s0 := Pool([Entry(c, 0)], {}, {}, 1, 0);
    assert DropDead(s0, {c}) == DropFront(s0);
    steps, states := [], [s0];
  }

  /** The scanner's fault is reachable with every connection alive: one initial connection,
      two callers, and the scanner finds more connections than initCount and none idle. */
  lemma ScannerFaultIsReachable(first: nat, second: nat) returns (states: seq<Pool<nat>>, steps: seq<Step<nat>>)
    requires first != second
    ensures var config := Config(1, 2, 60);
            && IsRun(config, states, steps) && Initial(config, states[0])
            && (forall step | step in steps :: AllAlive(step))
            && Enabled(states[|steps|], Scan({}, []))
            && Next(config, states[|steps|], Scan({}, [])) == HeadOfEmptyQueue
  {
    var config := Config(1, 2, 60);
    var s0 := Pool([Entry(first, 0)], {}, {}, 1, 0);
    var s1 := Pool([], {first}, {}, 1, 0);
    var s2 := Pool([Entry(second, 0)], {first}, {}, 2, 0);
    var s3 := Pool([], {first, second}, {}, 2, 0);
    assert DropDead(s0, {}) == s0 && DropDead(s2, {}) == s2;
    steps := [Get({}), Produce(second, 0), Get({})];
    states := [s0, s1, s2, s3];
  }
}
