/** Pollers that run while some connection is up. */
module Pollers {
  import opened Wrappers

  type Poller = string
  type Conn = string
  type Chan = nat

  /** The pollers with their quit channels, the connections, the workers that have
      not returned yet by their quit channel, and the channels closed so far. */
  datatype State = State(pollers: map<Poller, Option<Chan>>, conns: set<Conn>, workers: map<Chan, Poller>, closed: set<Chan>)

  /** The workers of a poller that nobody has told to stop. */
  function Live(s: State, p: Poller): set<Chan> {
    set ch | ch in s.workers && s.workers[ch] == p && ch !in s.closed
  }

  /** Every poller that was added has one live worker while some connection is up
      and none otherwise, and nothing else has a live worker. */
  ghost predicate OneWorkerEach(s: State) {
    && (forall p :: p in s.pollers && s.conns != {} ==> |Live(s, p)| == 1)
    && (forall p :: p !in s.pollers || s.conns == {} ==> Live(s, p) == {})
  }

  /** The quit channels in use are those of the live workers. */
  ghost predicate Linked(s: State) {
    && (forall p :: p in s.pollers ==> Live(s, p) == Quits(s.pollers[p]))
    && (forall p :: p !in s.pollers ==> Live(s, p) == {})
    && (forall p :: p in s.pollers ==> (s.pollers[p].Some? <==> s.conns != {}))
  }

  function Quits(quit: Option<Chan>): set<Chan> {
    match quit
    case None => {}
    case Some(ch) => {ch}
  }

  lemma LinkedIsOneEach(s: State)
    requires Linked(s)
    ensures OneWorkerEach(s)
  {
    hide Live;
  }

  /** A worker that starts is one more for its poller only. */
  lemma LiveAfterStart(s: State, p: Poller, ch: Chan, q: Poller)
    requires ch !in s.workers && ch !in s.closed
    ensures Live(s.(workers := s.workers[ch := p]), q) == if q == p then Live(s, q) + {ch} else Live(s, q)
  {
  }

  lemma LiveAfterStarting(s: State, s': State, p: Poller, quit: Option<Chan>)
    requires s'.closed == s.closed
    requires s'.workers == if quit.Some? then s.workers[quit.value := p] else s.workers
    requires quit.Some? ==> quit.value !in s.workers && quit.value !in s.closed
    ensures forall q :: Live(s', q) == if q == p then Live(s, q) + Quits(quit) else Live(s, q)
  {
    hide Live;
    forall q ensures Live(s', q) == if q == p then Live(s, q) + Quits(quit) else Live(s, q) {
      if quit.Some? {
        LiveAfterStart(s, p, quit.value, q);
        SameLive(s', s.(workers := s.workers[quit.value := p]), q);
      } else {
        SameLive(s', s, q);
      }
    }
  }

  /** What adding a poller does: all is well unless it was there and running. */
  lemma AddOutcome(s: State, s': State, p: Poller, quit: Option<Chan>)
    requires Linked(s)
    requires quit.Some? <==> s.conns != {}
    requires quit.Some? ==> quit.value !in s.workers && quit.value !in s.closed
    requires s' == State(s.pollers[p := quit], s.conns, if quit.Some? then s.workers[quit.value := p] else s.workers, s.closed)
    ensures OneWorkerEach(s') <==> p !in s.pollers || s.conns == {}
    ensures p !in s.pollers || s.conns == {} ==> Linked(s')
  {
    hide Live;
    LiveAfterStarting(s, s', p, quit);
    if p in s.pollers && s.conns != {} {
      NotLive(s, p, quit.value);
      assert Live(s', p) == {s.pollers[p].value, quit.value};
      assert |Live(s', p)| == 2;
    } else {
      LinkedIsOneEach(s');
    }
  }

  /** In the middle of starting: the pollers still to do have no worker, the others one. */
  ghost predicate Starting(s: State, todo: set<Poller>) {
    && (forall p :: p in todo || p !in s.pollers ==> Live(s, p) == {})
    && (forall p :: p in s.pollers && p !in todo ==> s.pollers[p].Some? && Live(s, p) == Quits(s.pollers[p]))
  }

  lemma NoneStarted(s: State)
    requires forall p :: Live(s, p) == {}
    ensures Starting(s, s.pollers.Keys)
  {
  }

  lemma StartedMore(s: State, s': State, todo: set<Poller>, p: Poller, quit: Option<Chan>)
    requires Starting(s, todo) && p in todo && quit.Some?
    requires quit.value !in s.workers && quit.value !in s.closed
    requires s' == State(s.pollers[p := quit], s.conns, s.workers[quit.value := p], s.closed)
    ensures Starting(s', todo - {p})
  {
    hide Live;
    LiveAfterStarting(s, s', p, quit);
  }

  lemma AllStarted(s: State)
    requires Starting(s, {}) && s.conns != {}
    ensures Linked(s)
  {
    hide Live;
  }

  /** A worker that is told to stop is one less for its poller only. */
  lemma LiveAfterClose(s: State, p: Poller, ch: Chan, q: Poller)
    requires ch in Live(s, p)
    ensures Live(s.(closed := s.closed + {ch}), q) == if q == p then Live(s, q) - {ch} else Live(s, q)
  {
  }

  lemma LiveAfterExit(s: State, ch: Chan, q: Poller)
    requires ch in s.closed
    ensures Live(s.(workers := s.workers - {ch}), q) == Live(s, q)
  {
  }

  class PollerSet {
    var pollers: map<Poller, Option<Chan>>
    var conns: set<Conn>
    var workers: map<Chan, Poller>
    var closed: set<Chan>
    var made: nat

    function Now(): State
      reads this
    {
      State(pollers, conns, workers, closed)
    }

    ghost predicate Valid()
      reads this
    {
      (forall ch :: ch in workers || ch in closed ==> ch < made) && Linked(Now())
    }

    constructor ()
      ensures Valid() && Now() == State(map[], {}, map[], {})
    {
      pollers, conns, workers, closed, made := map[], {}, map[], {}, 0;
    }

    /** startOne: no channel and no worker without a connection. */
    method StartOne(p: Poller) returns (quit: Option<Chan>)
      requires forall ch :: ch in workers || ch in closed ==> ch < made
      modifies `workers, `made
      ensures forall ch :: ch in workers || ch in closed ==> ch < made
      ensures conns == {} ==> quit == None && workers == old(workers)
      ensures conns != {} ==> quit.Some? && workers == old(workers)[quit.value := p]
      ensures conns != {} ==> quit.value !in old(workers) && quit.value !in closed
    {
      if conns == {} {
        return None;
      }
      var ch := made;
      made := made + 1;
      workers := workers[ch := p];
      quit := Some(ch);
    }

    /** Add. Adding the same poller again while a connection is up leaves the
        worker it had running with nobody to stop it. */
    method Add(p: Poller)
      requires Valid()
      modifies this
      ensures conns == old(conns) && pollers.Keys == old(pollers).Keys + {p}
      ensures OneWorkerEach(Now()) <==> p !in old(pollers) || conns == {}
      ensures p !in old(pollers) || conns == {} ==> Valid()
    {
      hide Linked, OneWorkerEach, Live;
      ghost var was := Now();
      var quit := StartOne(p);
      pollers := pollers[p := quit];
      AddOutcome(was, Now(), p, quit);
    }

    /** Handle, for a connection that came up. */
    method Connected(conn: Conn)
      requires Valid()
      modifies this
      ensures Valid() && OneWorkerEach(Now())
      ensures conns == old(conns) + {conn} && pollers.Keys == old(pollers).Keys
      ensures old(conns) != {} ==> workers == old(workers) && pollers == old(pollers)
      ensures closed == old(closed)
    {
      var first := conns == {};
      conns := conns + {conn};
      hide Live;
      forall q ensures Live(Now(), q) == old(Live(Now(), q)) {
        SameLive(Now(), old(Now()), q);
      }
      if first {
        assert conns == {conn};
      }
      if first && |conns| == 1 {
        StartAll();
      }
      LinkedIsOneEach(Now());
    }

    /** The loop that starts every poller. */
    method StartAll()
      requires forall ch :: ch in workers || ch in closed ==> ch < made
      requires conns != {} && forall p :: Live(Now(), p) == {}
      modifies `pollers, `workers, `made
      ensures Valid() && pollers.Keys == old(pollers).Keys
    {
      hide Live, Starting, Linked;
      var todo := pollers.Keys;
      NoneStarted(Now());
      while todo != {}
        invariant todo <= pollers.Keys == old(pollers).Keys
        invariant forall ch :: ch in workers || ch in closed ==> ch < made
        invariant Starting(Now(), todo)
        decreases |todo|
      {
        var p :| p in todo;
        ghost var was := Now();
        var quit := StartOne(p);
        pollers := pollers[p := quit];
        StartedMore(was, Now(), todo, p, quit);
        todo := todo - {p};
      }
      AllStarted(Now());
    }

    /** Handle, for a connection that went down. */
    method Disconnected(conn: Conn)
      requires Valid()
      modifies this
      ensures Valid() && OneWorkerEach(Now())
      ensures conns == old(conns) - {conn} && pollers.Keys == old(pollers).Keys
      ensures conns != {} ==> closed == old(closed) && pollers == old(pollers)
      ensures workers == old(workers)
    {
      var up := conns;
      conns := conns - {conn};
      hide Live;
      forall q ensures Live(Now(), q) == old(Live(Now(), q)) {
        SameLive(Now(), old(Now()), q);
      }
      if |up| == 1 && conns == {} {
        StopAll();
      } else {
        LastOne(up, conn);
      }
      LinkedIsOneEach(Now());
    }

    /** Closing a quit channel, which must not have been closed before. */
    method StopOne(p: Poller)
      requires p in pollers && Live(Now(), p) == Quits(pollers[p])
      modifies `pollers, `closed
      ensures pollers == old(pollers)[p := None]
      ensures closed == old(closed) + Quits(old(pollers)[p])
      ensures forall ch :: ch in Quits(old(pollers)[p]) ==> ch in workers && ch !in old(closed)
      ensures Live(Now(), p) == {}
      ensures forall q :: q != p ==> Live(Now(), q) == old(Live(Now(), q))
    {
      ghost var was := Now();
      var quit := pollers[p];
      if quit.Some? {
        assert quit.value in Live(was, p);
        closed := closed + {quit.value};
      }
      pollers := pollers[p := None];
      hide Live;
      forall q ensures Live(Now(), q) == if q == p then {} else Live(was, q) {
        if quit.Some? {
          LiveAfterClose(was, p, quit.value, q);
        }
        SameLive(Now(), was.(closed := closed), q);
      }
    }

    /** The loop that tells every worker to stop; no channel is closed twice. */
    method StopAll()
      requires forall ch :: ch in workers || ch in closed ==> ch < made
      requires conns == {}
      requires forall p :: p in pollers ==> Live(Now(), p) == Quits(pollers[p])
      requires forall p :: p !in pollers ==> Live(Now(), p) == {}
      modifies `pollers, `closed
      ensures Valid() && pollers.Keys == old(pollers).Keys
    {
      hide Live;
      var todo := pollers.Keys;
      while todo != {}
        invariant todo <= pollers.Keys == old(pollers).Keys
        invariant forall ch :: ch in workers || ch in closed ==> ch < made
        invariant forall p :: p in todo ==> Live(Now(), p) == Quits(pollers[p])
        invariant forall p :: p !in todo ==> Live(Now(), p) == {} && (p in pollers ==> pollers[p] == None)
        decreases |todo|
      {
        var p :| p in todo;
        StopOne(p);
        todo := todo - {p};
      }
    }

    /** A worker that finds its channel closed returns. */
    method WorkerReturns(ch: Chan)
      requires Valid() && ch in workers && ch in closed
      modifies `workers
      ensures Valid() && OneWorkerEach(Now())
      ensures workers == old(workers) - {ch}
    {
      ghost var was := Now();
      workers := workers - {ch};
      hide Live;
      forall q ensures Live(Now(), q) == Live(was, q) {
        LiveAfterExit(was, ch, q);
      }
      LinkedIsOneEach(Now());
    }
  }

  lemma SameLive(s: State, s': State, q: Poller)
    requires s.workers == s'.workers && s.closed == s'.closed
    ensures Live(s, q) == Live(s', q)
  {
  }

  lemma NotLive(s: State, p: Poller, ch: Chan)
    requires ch !in s.workers
    ensures ch !in Live(s, p)
  {
  }

  lemma LastOne(up: set<Conn>, conn: Conn)
    ensures up != {} && up - {conn} == {} ==> |up| == 1
  {
    if up != {} && up - {conn} == {} {
      assert up == {conn};
    }
  }
}
