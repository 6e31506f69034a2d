/** What one node of the network remembers: its cache is the run of its own calls, so that it takes a frame
    as new exactly when every earlier add of the id is out of date or was evicted. */
module NodeHistory {
  import opened Bits
  import opened Options
  import opened SeenSpec
  import opened PacketCodec
  import opened MeshSpec
  import opened Network
  import opened SeenWindow

  // ---- the calls on a node's cache ----

  // A frame's calls: it is looked for, and added if it is new.
  ghost function FrameCalls(cache: Cache, raw: seq<byte>, now: int, addTime: int): seq<Op>
  {
    match Decoded(raw)
    case None => []
    case Some(p) => [Check(p.id, now)] + if Seen(cache, p.id, now) then [] else [Add(p.id, addTime)]
  }

  ghost function CallsOf(net: Net, s: State, e: Event, n: nat): seq<Op>
    requires Ok(net, s)
  {
    if !Enabled(net, s, e) then []
    else
      match e
      case Originate(m, p) => if m == n then [Add(p.id, s.now)] else []
      case Deliver(i, t) =>
        if s.flight[i].to.node == n then FrameCalls(s.caches[n], s.flight[i].wire, s.now, t) else []
      case Tick(_) => []
      case Prune(m) => if m == n then [Op.Prune(s.now)] else []
  }

  ghost function CallsAt(net: Net, s: State, es: seq<Event>, n: nat): seq<Op>
    requires Ok(net, s)
    decreases |es|
  {
    if es == [] then []
    else StepOk(net, s, es[0]); CallsOf(net, s, es[0], n) + CallsAt(net, Network.Step(net, s, es[0]), es[1..], n)
  }

  // The node's cache is what these calls made of an empty one.
  ghost predicate Past(net: Net, s: State, n: nat, ops: seq<Op>)
  {
    Ok(net, s) && n < |net.ports| && s.caches[n] == Run(ops).cache && Until(ops, s.now)
  }

  lemma EmptyPast(net: Net, s: State, n: nat)
    requires Ok(net, s) && n < |net.ports| && s.caches[n] == Empty()
    ensures Past(net, s, n, [])
  {
  }

  lemma {:induction false} FrameHistory(ops: seq<Op>, raw: seq<byte>, now: int, addTime: int)
    requires Until(ops, now) && now <= addTime
    ensures var cache := Run(ops).cache;
      var ops' := ops + FrameCalls(cache, raw, now, addTime);
      Run(ops').cache == CacheAfter(cache, raw, now, addTime) && Until(ops', addTime)
  {
    hide Run, Decoded, Seen, Until, Checked, Added;
    var cache := Run(ops).cache;
    if Decoded(raw).Some? {
      var id := Decoded(raw).value.id;
      UntilMore(ops, Check(id, now), now);
      RunMore(ops, Check(id, now));
      if !Seen(cache, id, now) {
        var ops1 := ops + [Check(id, now)];
        UntilMore(ops1, Add(id, addTime), now);
        RunMore(ops1, Add(id, addTime));
        assert ops + FrameCalls(cache, raw, now, addTime) == ops1 + [Add(id, addTime)];
      } else {
        UntilLater(ops + [Check(id, now)], now, addTime);
        assert FrameCalls(cache, raw, now, addTime) == [Check(id, now)];
      }
    } else {
      assert ops + [] == ops;
      UntilLater(ops, now, addTime);
    }
  }

  lemma {:induction false} StepHistory(net: Net, s: State, e: Event, n: nat, ops: seq<Op>)
    requires Past(net, s, n, ops)
    ensures Past(net, Network.Step(net, s, e), n, ops + CallsOf(net, s, e, n))
  {
    hide Run, Until, Added, Pruned, Checked, CacheAfter, FrameCalls, Onward, Valid, WellFormed;
    StepOk(net, s, e);
    var s' := Network.Step(net, s, e);
    if Enabled(net, s, e) && s.now <= s'.now {
      UntilLater(ops, s.now, s'.now);
    }
    assert ops + [] == ops;
    if Enabled(net, s, e) {
      match e
      case Originate(m, p) =>
        UntilMore(ops, Add(p.id, s.now), s.now);
        RunMore(ops, Add(p.id, s.now));
      case Deliver(i, t) =>
        FrameHistory(ops, s.flight[i].wire, s.now, t);
      case Tick(_) =>
      case Prune(m) =>
        UntilMore(ops, Op.Prune(s.now), s.now);
        RunMore(ops, Op.Prune(s.now));
    }
  }

  /** At any moment of any run a node's cache is the result of its own calls alone, in the order of the run. */
  lemma {:induction false} PlayHistory(net: Net, s: State, es: seq<Event>, n: nat, ops: seq<Op>)
    requires Past(net, s, n, ops)
    ensures Past(net, Play(net, s, es), n, ops + CallsAt(net, s, es, n))
    decreases |es|
  {
    hide CallsOf, Past, Network.Step;
    PastOk(net, s, n, ops);
    if es == [] {
      assert ops + [] == ops;
    } else {
      StepHistory(net, s, es[0], n, ops);
      StepOk(net, s, es[0]);
      var s', c := Network.Step(net, s, es[0]), CallsOf(net, s, es[0], n);
      PlayHistory(net, s', es[1..], n, ops + c);
      assert ops + c + CallsAt(net, s', es[1..], n) == ops + (c + CallsAt(net, s', es[1..], n));
    }
  }

  lemma PastOk(net: Net, s: State, n: nat, ops: seq<Op>)
    requires Past(net, s, n, ops)
    ensures Ok(net, s)
  {
  }

  // ---- when a node takes a packet as new ----

  // Some add of the id is at most sixty seconds old and was not evicted.
  ghost predicate Remembers(ops: seq<Op>, id: Id, now: int)
  {
    exists k :: Young(Run(ops), k, now) && Run(ops).log[k].id == id && k !in Run(ops).evicted
  }

  /** On any run whatsoever, a node that started with an empty cache takes a frame as new exactly when every
      add of the id that it has made is more than sixty seconds old or was evicted. */
  lemma {:induction false} FreshIff(net: Net, s: State, es: seq<Event>, n: nat, raw: seq<byte>)
    requires Ok(net, s) && n < |net.ports| && s.caches[n] == Empty() && Decoded(raw).Some?
    ensures var s', h, id := Play(net, s, es), Run(CallsAt(net, s, es, n)), Decoded(raw).value.id;
      && h.log == Adds(CallsAt(net, s, es, n))
      && (Fresh(s'.caches[n], raw, s'.now) <==>
        forall k :: 0 <= k < |h.log| && h.log[k].id == id ==> s'.now - h.log[k].time > TTL_SEC || k in h.evicted)
  {
    hide CallsAt, Play, Run, Decoded, Past, Until;
    var calls, s' := CallsAt(net, s, es, n), Play(net, s, es);
    EmptyPast(net, s, n);
    PlayHistory(net, s, es, n, []);
    assert [] + calls == calls;
    LogIsAdds(calls);
    PastSees(net, s', n, calls, Decoded(raw).value.id);
  }

  lemma {:induction false} PastSees(net: Net, s: State, n: nat, ops: seq<Op>, id: Id)
    requires Past(net, s, n, ops)
    ensures Ok(net, s) && n < |s.caches|
    ensures Seen(s.caches[n], id, s.now) <==> Remembers(ops, id, s.now)
  {
    hide Run, Seen, Valid, WellFormed;
    CheckExact(ops, id, s.now);
  }

  /** Once nothing happens for more than sixty seconds, a node takes anything as new. */
  lemma {:induction false} AllForgotten(net: Net, s: State, n: nat, ops: seq<Op>, x: Id, later: int)
    requires Past(net, s, n, ops) && later - s.now > TTL_SEC
    ensures Ok(net, s) && n < |s.caches| && !Seen(s.caches[n], x, later)
  {
    hide Run, Seen, Valid, WellFormed;
    RunInv(ops, s.now);
    CheckExact(ops, x, later);
  }

  // ---- when it takes one more than once ----

  function Times(ops: seq<Op>, x: Id): nat
  {
    if ops == [] then 0
    else Times(ops[..|ops| - 1], x) + if ops[|ops| - 1].Add? && ops[|ops| - 1].id == x then 1 else 0
  }

  // A copy with the id reaches the node.
  ghost predicate Reaches(net: Net, s: State, e: Event, n: nat, x: Id)
    requires Ok(net, s)
  {
    && e.Deliver? && Enabled(net, s, e) && s.flight[e.index].to.node == n
    && Decoded(s.flight[e.index].wire).Some? && Decoded(s.flight[e.index].wire).value.id == x
  }

  // Whenever a copy comes to the node after the first add of the id, some add is remembered.
  ghost predicate AlwaysRemembers(net: Net, s: State, es: seq<Event>, n: nat, x: Id, ops: seq<Op>)
    requires Ok(net, s)
    decreases |es|
  {
    es == []
    || ((Reaches(net, s, es[0], n, x) && Times(ops, x) > 0 ==> Remembers(ops, x, s.now))
        && (StepOk(net, s, es[0]);
            AlwaysRemembers(net, Network.Step(net, s, es[0]), es[1..], n, x, ops + CallsOf(net, s, es[0], n))))
  }

  ghost predicate NotOriginated(es: seq<Event>, x: Id)
  {
    forall e :: e in es ==> e.Originate? ==> e.packet.id != x
  }

  lemma {:induction false} TimesAppend(ops: seq<Op>, more: seq<Op>, x: Id)
    ensures Times(ops + more, x) == Times(ops, x) + Times(more, x)
    decreases |more|
  {
    if more == [] {
      assert ops + more == ops;
    } else {
      var init := more[..|more| - 1];
      TimesAppend(ops, init, x);
      assert (ops + more)[..|ops + more| - 1] == ops + init;
    }
  }

  lemma {:induction false} FrameTimes(cache: Cache, raw: seq<byte>, x: Id, now: int, addTime: int)
    ensures Times(FrameCalls(cache, raw, now, addTime), x)
         == if Decoded(raw).Some? && Decoded(raw).value.id == x && !Seen(cache, x, now) then 1 else 0
  {
    hide Decoded, Seen;
    if Decoded(raw).Some? {
      var id := Decoded(raw).value.id;
      OneTime(Check(id, now), x);
      if !Seen(cache, id, now) {
        OneTime(Add(id, addTime), x);
        TimesAppend([Check(id, now)], [Add(id, addTime)], x);
      } else {
        assert [Check(id, now)] + [] == [Check(id, now)];
      }
    }
  }

  lemma {:induction false} OneTime(op: Op, x: Id)
    ensures Times([op], x) == if op.Add? && op.id == x then 1 else 0
  {
    assert [op][..0] == [];
  }

  // An event adds the id to a node's cache exactly when it brings a copy that the node does not remember.
  lemma {:induction false} StepTimes(net: Net, s: State, e: Event, n: nat, x: Id, ops: seq<Op>)
    requires Past(net, s, n, ops) && (e.Originate? ==> e.packet.id != x)
    ensures Times(CallsOf(net, s, e, n), x)
         == if Reaches(net, s, e, n, x) && !Remembers(ops, x, s.now) then 1 else 0
  {
    hide Run, Until, Decoded, Seen, FrameCalls, Remembers, Valid, WellFormed;
    PastSees(net, s, n, ops, x);
    if Enabled(net, s, e) {
      match e
      case Originate(m, p) => OneTime(Add(p.id, s.now), x);
      case Deliver(i, t) => FrameTimes(s.caches[n], s.flight[i].wire, x, s.now, t);
      case Tick(_) =>
      case Prune(m) => OneTime(Op.Prune(s.now), x);
    }
  }

  /** After its own calls so far, with the id added at most once among them, a node takes the packet at most
      once over a run exactly when it still remembers the id whenever another copy comes. */
  lemma {:induction false} OnceIff(net: Net, s: State, es: seq<Event>, n: nat, x: Id, ops: seq<Op>)
    requires Past(net, s, n, ops) && Times(ops, x) <= 1 && NotOriginated(es, x)
    ensures Ok(net, s)
    ensures Times(ops + CallsAt(net, s, es, n), x) <= 1 <==> AlwaysRemembers(net, s, es, n, x, ops)
    decreases |es|
  {
    hide Past, CallsOf, Network.Step, Times, Reaches, Remembers;
    PastOk(net, s, n, ops);
    if es == [] {
      assert ops + [] == ops;
    } else {
      StepOk(net, s, es[0]);
      assert es[0] in es;
      var s', c, rest := Network.Step(net, s, es[0]), CallsOf(net, s, es[0], n), es[1..];
      StepHistory(net, s, es[0], n, ops);
      StepTimes(net, s, es[0], n, x, ops);
      TimesAppend(ops, c, x);
      TimesAppend(ops + c, CallsAt(net, s', rest, n), x);
      assert ops + c + CallsAt(net, s', rest, n) == ops + CallsAt(net, s, es, n);
      if Times(ops + c, x) <= 1 {
        OnceIff(net, s', rest, n, x, ops + c);
      }
    }
  }
}
