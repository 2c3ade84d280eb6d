// The pool object of mysqlPool.cc. Each method is the part of a function that runs with
// _queueLock held, from the last wake-up on, and takes the pool one protocol step further.
// What MySQL and the clock answer comes in as parameters: dead are the connections whose
// ping fails, stamps and clock the readings of clock() in the order they are made.

module MysqlPool {
  import opened Helpers
  import opened PoolProtocol

  class MysqlConnection {
    var aliveTime: int

    constructor ()
    {
      aliveTime := 0;
    }

    method RefreshAliveTime(clock: int)
      modifies this
      ensures aliveTime == clock
    {
      aliveTime := clock;
    }
  }

  /** How many of the constructor's attempts to connect succeed. */
  function Connected(connects: seq<bool>): nat {
    if connects == [] then 0
    else Connected(connects[..|connects| - 1]) + if connects[|connects| - 1] then 1 else 0
  }

  /** The clock readings of those that succeed. */
  function ConnectedAt(connects: seq<bool>, stamps: seq<int>): (readings: seq<int>)
    requires |connects| == |stamps|
    ensures |readings| == Connected(connects)
  {
    if connects == [] then []
    else
      var last := |connects| - 1;
      ConnectedAt(connects[..last], stamps[..last]) + if connects[last] then [stamps[last]] else []
  }

  function Since<C>(idle: seq<Entry<C>>): (readings: seq<int>) {
    seq(|idle|, k requires 0 <= k < |idle| => idle[k].since)
  }

  /** After i attempts: the entries made by those that succeeded, in order. */
  ghost predicate Attempted<C>(connects: seq<bool>, stamps: seq<int>, i: nat, idle: seq<Entry<C>>, now: int)
    requires i <= |connects| == |stamps|
  {
    && |idle| == Connected(connects[..i]) <= i
    && Since(idle) == ConnectedAt(connects[..i], stamps[..i])
    && DistinctConns(idle) && Sorted(idle, now)
    && forall k | i <= k < |stamps| :: now <= stamps[k]
  }

  lemma OneMoreAttempt(connects: seq<bool>, stamps: seq<int>, i: nat)
    requires i < |connects| == |stamps|
    ensures Connected(connects[..i + 1]) == Connected(connects[..i]) + if connects[i] then 1 else 0
    ensures ConnectedAt(connects[..i + 1], stamps[..i + 1]) ==
            ConnectedAt(connects[..i], stamps[..i]) + if connects[i] then [stamps[i]] else []
  {
    assert connects[..i + 1][..i] == connects[..i] && stamps[..i + 1][..i] == stamps[..i];
  }

  lemma AttemptFails<C>(connects: seq<bool>, stamps: seq<int>, i: nat, idle: seq<Entry<C>>, now: int)
    requires i < |connects| == |stamps| && !connects[i] && Attempted(connects, stamps, i, idle, now)
    ensures Attempted(connects, stamps, i + 1, idle, now)
  {
    OneMoreAttempt(connects, stamps, i);
  }

  lemma AttemptConnects<C>(connects: seq<bool>, stamps: seq<int>, i: nat, idle: seq<Entry<C>>, now: int, p: C)
    requires i < |connects| == |stamps| && connects[i] && Attempted(connects, stamps, i, idle, now)
    requires ClockFrom(0, stamps) && forall k | 0 <= k < |idle| :: idle[k].conn != p
    ensures Attempted(connects, stamps, i + 1, idle + [Entry(p, stamps[i])], stamps[i])
  {
    OneMoreAttempt(connects, stamps, i);
    PushKeepsOrder(idle, now, Entry(p, stamps[i]));
    assert Since(idle + [Entry(p, stamps[i])]) == Since(idle) + [stamps[i]];
  }

  class MysqlPool {
    const config: Config
    var connQueue: seq<MysqlConnection>
    var currentCount: int
    ghost var now: int
    // The connections that callers hold, and those the pool has closed or deleted.
    ghost var out: set<MysqlConnection>
    ghost var gone: set<MysqlConnection>

    ghost function Model(): Pool<MysqlConnection>
      reads this, connQueue
    {
      Pool(seq(|connQueue|, i requires 0 <= i < |connQueue| reads this, connQueue =>
                 Entry(connQueue[i], connQueue[i].aliveTime)),
           out, gone, currentCount, now)
    }

    /** initCount attempts; those that connect enter the queue. */
    constructor (config: Config, connects: seq<bool>, stamps: seq<int>)
      requires |connects| == |stamps| == Max(0, config.initCount)
      requires ClockFrom(0, stamps)
      ensures this.config == config && fresh(connQueue)
      ensures Initial(config, Model()) && currentCount == |connQueue| == Connected(connects)
      ensures forall k | 0 <= k < |connQueue| :: connQueue[k].aliveTime == ConnectedAt(connects, stamps)[k]
    {
      this.config := config;
      connQueue, currentCount, now, out, gone := [], 0, 0, {}, {};
      new;
      ghost var idle: seq<Entry<MysqlConnection>> := [];
      for i := 0 to |connects|
        invariant Model() == Pool(idle, {}, {}, |idle|, now) && fresh(connQueue)
        invariant Attempted(connects, stamps, i, idle, now)
      {
        var p := new MysqlConnection();
        if connects[i] {
          assert forall k | 0 <= k < |idle| :: idle[k].conn == connQueue[k];
          AttemptConnects(connects, stamps, i, idle, now, p);
          Push(p, stamps[i]);
          currentCount := currentCount + 1;
          idle := idle + [Entry(p, stamps[i])];
        } else {
          AttemptFails(connects, stamps, i, idle, now);
        }
      }
      assert connects[..|connects|] == connects && stamps[..|connects|] == stamps;
      assert forall k | 0 <= k < |connQueue| :: Since(idle)[k] == Model().idle[k].since;
    }

    /** Its idle time starts and it enters the queue: what constructor, producer and deleter do. */
    method Push(p: MysqlConnection, stamp: int)
      requires p !in connQueue
      modifies this`connQueue, this`now, p
      ensures connQueue == old(connQueue) + [p]
      ensures Model() == old(Model()).(idle := old(Model()).idle + [Entry(p, stamp)], now := stamp)
    {
      ghost var before := Model().idle;
      now := stamp;
      p.RefreshAliveTime(stamp);
      connQueue := connQueue + [p];
      assert Model().idle == before + [Entry(p, stamp)];
    }

    /** `produceConnectionTask` after its wait. Whether the new connection has connected is
        not looked at. */
    method Produce(stamp: int) returns (ghost p: MysqlConnection)
      requires connQueue == [] && now <= stamp
      modifies this
      ensures Enabled(old(Model()), Step.Produce(p, stamp))
      ensures Next(config, old(Model()), Step.Produce(p, stamp)) == Ok(Model())
    {
      var conn := new MysqlConnection();
      p := conn;
      if currentCount < config.maxCount {
        Push(conn, stamp);
        currentCount := currentCount + 1;
      }
    }

    /** The loop at the start of getOneConnect and of the scanner's round. */
    method CloseDead(dead: set<MysqlConnection>)
      modifies this
      ensures Model() == DropDead(old(Model()), dead)
    {
      while connQueue != [] && connQueue[0] in dead
        invariant DropDead(Model(), dead) == DropDead(old(Model()), dead)
        decreases |connQueue|
      {
        PopFront();
      }
    }

    /** Closes or deletes the front connection and takes it out of the queue. */
    method PopFront()
      requires connQueue != []
      modifies this
      ensures Model() == DropFront(old(Model())) && connQueue == old(connQueue)[1..]
    {
      gone := gone + {connQueue[0]};
      connQueue := connQueue[1..];
      currentCount := currentCount - 1;
      assert Model().idle == old(Model()).idle[1..];
    }

    /** `getOneConnect` from the end of its wait. Null without headOfEmpty is the time-out;
        headOfEmpty tells that poolFront was called on an empty queue. */
    method GetOneConnect(dead: set<MysqlConnection>) returns (sp: MysqlConnection?, headOfEmpty: bool)
      modifies this
      ensures old(connQueue) == [] ==> sp == null && !headOfEmpty && Model() == old(Model())
      ensures old(connQueue) != [] ==>
                if headOfEmpty then Next(config, old(Model()), Get(dead)) == HeadOfEmptyQueue
                else Next(config, old(Model()), Get(dead)) == Ok(Model()) &&
                     sp == DropDead(old(Model()), dead).idle[0].conn
    {
      if connQueue == [] {
        return null, false;
      }
      CloseDead(dead);
      if connQueue == [] {
        return null, true;
      }
      ghost var before := Model();
      sp, headOfEmpty := connQueue[0], false;
      out := out + {connQueue[0]};
      connQueue := connQueue[1..];
      assert Model().idle == before.idle[1..];
    }

    /** The deleter of a handed-out pointer. */
    method Return(pcon: MysqlConnection, stamp: int)
      requires Inv(Model()) && pcon in out && now <= stamp
      modifies this, pcon
      ensures Enabled(old(Model()), Step.Return(pcon, stamp))
      ensures Next(config, old(Model()), Step.Return(pcon, stamp)) == Ok(Model())
    {
      ghost var before := Model();
      assert forall i | 0 <= i < |connQueue| :: before.idle[i] in before.idle && before.idle[i].conn == connQueue[i];
      Push(pcon, stamp);
      out := out - {pcon};
    }

    /** One round of `scannerConnectionTask`; headOfEmpty as above. */
    method Scan(dead: set<MysqlConnection>, clock: seq<int>) returns (headOfEmpty: bool)
      requires Enabled(Model(), Step.Scan(dead, clock))
      modifies this
      ensures Next(config, old(Model()), Step.Scan(dead, clock)) ==
              if headOfEmpty then HeadOfEmptyQueue else Ok(Model())
    {
      DropDeadShortens(Model(), dead);
      CloseDead(dead);
      headOfEmpty := EvictExpired(clock);
    }

    method EvictExpired(clock: seq<int>) returns (headOfEmpty: bool)
      requires |clock| >= |connQueue|
      modifies this
      ensures Evict(config, old(Model()), clock) == if headOfEmpty then HeadOfEmptyQueue else Ok(Model())
    {
      var i := 0;
      while currentCount > config.initCount
        invariant i <= |clock| && |clock[i..]| >= |connQueue|
        invariant Evict(config, Model(), clock[i..]) == Evict(config, old(Model()), clock)
        decreases |connQueue|
      {
        if connQueue == [] {
          return true;
        }
        ghost var before := Model();
        var p := connQueue[0];
        now := clock[i];
        if clock[i] - p.aliveTime >= config.maxIdleTime * 1000 {
          PopFront();
          assert Model() == DropFront(before).(now := clock[i]);
          i := i + 1;
          assert clock[i - 1..][1..] == clock[i..];
        } else {
          return false;
        }
      }
      headOfEmpty := false;
    }

    /** The destructor closes what is idle; what callers hold stays open and counted. */
    method Destroy()
      requires Inv(Model())
      modifies this
      ensures connQueue == [] && currentCount == |out| && out == old(out)
      ensures gone == old(gone) + Conns(old(Model()).idle)
    {
      ghost var start := Model();
      while |connQueue| != 0
        invariant Inv(Model()) && out == old(out)
        invariant gone + Conns(Model().idle) == old(gone) + Conns(start.idle)
        decreases |connQueue|
      {
        ghost var before := Model();
        PopFront();
        DropFrontKeepsInv(before);
        ConnsFront(before.idle);
      }
    }
  }
}
