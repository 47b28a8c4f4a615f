/**
What the operations of the address manager do to the times it keeps, which its self-check looks at:
src/addrman.cpp.  Everything else is kept whatever the clock says; for the times the exact condition
on the clock is given.
*/
module AddrManTimes {
  import opened Numbers
  import opened AddrManState
  import opened AddrManOps

  /** Entries keep their times, and none but the given one becomes tried. */
  ghost predicate SameTimes(info: Infos, next: Infos, id: Id) {
    forall x <- next | x != id ::
      && x in info && next[x].lastTry == info[x].lastTry && next[x].lastSuccess == info[x].lastSuccess
      && (next[x].inTried ==> info[x].inTried)
  }

  ghost predicate TimeOk(info: AddrInfo) {
    info.lastTry >= 0 && info.lastSuccess >= 0 && (info.inTried ==> info.lastSuccess > 0)
  }

  lemma TimesFrom(info: Infos, next: Infos, id: Id)
    requires TimesOk(info) && SameTimes(info, next, id)
    ensures TimesOk(next) <==> (id in next ==> TimeOk(next[id]))
  {
  }

  // ---------------------------------------------------------------- adding

  lemma PlaceNewTimes(net: Net, s: State, id: Id, source: NetAddr, now: int)
    requires Core(net, s) && TimesOk(s.info) && id in s.info && !s.info[id].inTried
    ensures TimesOk(PlaceNew(net, s, id, source, now).state.info)
  {
    hide Core, ClearNew, Delete, NewIds, TriedIds, IsTerrible;
    var slot := NewSlot(net, s.info[id].addr, source);
    ClearNewOk(net, s, slot);
    if s.info[id].nRefCount == 0 {
      DeleteOk(net, s, id);
    }
  }

  lemma TouchTimes(info: Infos, id: Id, v: AddrInfo)
    requires TimesOk(info) && id in info && TimeOk(v)
    ensures TimesOk(info[id := v])
  {
  }

  /** Announcements never put the times out of order. */
  lemma AddSingleTimes(net: Net, s: State, a: Service, nTime: int, nServices: nat, source: NetAddr,
                       timePenalty: int, now: int, random: nat)
    requires Inv(net, s) && TimesOk(s.info)
    ensures TimesOk(AddSingle(net, s, a, nTime, nServices, source, timePenalty, now, random).state.info)
  {
    hide AddrOk, RandomOk, EntriesOk, RefOk, TriedOk, NewOk, Counts, AllSettled, CollisionsOk, PlaceNew, Pow, BitOr;
    var penalty := if net.host(a) == source then 0 else timePenalty;
    if IsRoutable(net, a) {
      if a in s.addr {
        Found(net, s, a);
        var id := s.addr[a];
        var v := Reannounced(s.info[id], nTime, nServices, penalty, now);
        TouchOk(net, s, id, v);
        TouchTimes(s.info, id, v);
        if !v.inTried {
          PlaceNewTimes(net, s.(info := s.info[id := v]), id, source, now);
        }
      } else {
        CreateOk(net, s, a, Max0(nTime - penalty), nServices, source);
        var s1 := Create(s, a, Max0(nTime - penalty), nServices, source).(nNew := s.nNew + 1);
        PlaceNewTimes(net, s1, s.nIdCount, source, now);
      }
    }
  }

  // ---------------------------------------------------------------- successes and attempts

  /** A success keeps the times in order exactly if its own time is positive, or zero for an entry that is
      not tried and does not become so. */
  lemma GoodTimes(net: Net, s: State, a: Service, testBeforeEvict: bool, time: int)
    requires Inv(net, s) && TimesOk(s.info)
    ensures a in s.addr ==> s.addr[a] in s.info
    ensures TimesOk(Good(net, s, a, testBeforeEvict, time).info) <==>
              a !in s.addr || time > 0
              || (time == 0 && !s.info[s.addr[a]].inTried && testBeforeEvict && TriedSlot(net, a) in s.triedT)
  {
    hide AddrOk, RandomOk, EntriesOk, RefOk, TriedOk, NewOk, Counts, AllSettled, CollisionsOk, MakeTried, TriedSlot;
    GoodEffect(net, s, a, testBeforeEvict, time);
    if a in s.addr {
      Found(net, s, a);
      var id := s.addr[a];
      var t := Good(net, s, a, testBeforeEvict, time);
      GoodSame(net, s, a, testBeforeEvict, time);
      TimesFrom(s.info, t.info, id);
    }
  }

  lemma GoodSame(net: Net, s: State, a: Service, testBeforeEvict: bool, time: int)
    requires Inv(net, s) && a in s.addr && s.addr[a] in s.info
    ensures SameTimes(s.info, Good(net, s, a, testBeforeEvict, time).info, s.addr[a])
  {
    hide AddrOk, RandomOk, EntriesOk, RefOk, TriedOk, NewOk, Counts, AllSettled, CollisionsOk, MakeTried, TriedSlot;
    var id := s.addr[a];
    Found(net, s, a);
    var s1 := s.(lastGood := time, info := s.info[id := Succeeded(s.info[id], time)]);
    TouchOk(net, s, id, Succeeded(s.info[id], time));
    GoodTime(net, s.(info := s.info[id := Succeeded(s.info[id], time)]), time);
    if !s.info[id].inTried {
      MakeTriedOk(net, s1, id);
    }
  }

  /** An attempt keeps the times in order exactly if its own time is not negative, or the address unknown. */
  lemma AttemptTimes(net: Net, s: State, a: Service, countFailure: bool, time: int)
    requires Inv(net, s) && TimesOk(s.info)
    ensures TimesOk(OnEntry(s, a, info => AttemptInfo(info, countFailure, s.lastGood, time)).info) <==> a !in s.addr || time >= 0
  {
    hide RandomOk, EntriesOk, RefOk, TriedOk, NewOk, Counts, AllSettled, CollisionsOk;
    if a in s.addr {
      Found(net, s, a);
      var id := s.addr[a];
      var v := AttemptInfo(s.info[id], countFailure, s.lastGood, time);
      var t := OnEntry(s, a, info => AttemptInfo(info, countFailure, s.lastGood, time));
      assert t.info == s.info[id := v];
      TimesFrom(s.info, t.info, id);
    }
  }

  /** Resolving a pending collision keeps the times in order whatever the clock says: the opponent once
      succeeded, and it is replaced only long after that. */
  lemma ResolveOneTimes(net: Net, s: State, id: Id, now: int)
    requires Inv(net, s) && TimesOk(s.info) && id in s.collisions
    ensures TimesOk(ResolveOne(net, s, id, now).info)
  {
    hide AddrOk, RandomOk, EntriesOk, RefOk, TriedOk, NewOk, Counts, AllSettled, CollisionsOk, Good, ResolveOne, TriedSlot;
    AnyTimes(net, s, id, now);
    if id in s.info {
      CollisionHasOpponent(net, s, id);
      assert TimeOk(s.info[s.triedT[TriedSlot(net, s.info[id].addr)]]);
    }
  }

  lemma AnyTimes(net: Net, s: State, id: Id, now: int)
    requires Inv(net, s) && TimesOk(s.info)
    ensures TimesOk(ResolveOne(net, s, id, now).info) <==> Resolution(net, s, id, now) != Replace || now > 0
  {
    hide RandomOk, EntriesOk, RefOk, TriedOk, NewOk, Counts, AllSettled, CollisionsOk, Good, TimesOk;
    if Resolution(net, s, id, now) == Replace {
      EntryFound(net, s, id);
      GoodTimes(net, s, s.info[id].addr, false, now);
    }
  }

  lemma ResolvedTimes(net: Net, s: State, id: Id, now: int)
    requires Inv(net, s)
    ensures TimesOk(s.info) && (id in s.collisions || now > 0) ==> TimesOk(ResolveOne(net, s, id, now).info)
  {
    hide Inv, ResolveOne, Resolution, TimesOk;
    if TimesOk(s.info) {
      AnyTimes(net, s, id, now);
      if id in s.collisions {
        ResolveOneTimes(net, s, id, now);
      }
    }
  }

  // ---------------------------------------------------------------- whole runs

  /** A success has a positive time, an attempt one that is not negative. */
  predicate PositiveTimes(e: Event) {
    match e
    case GoodEvent(_, time) => time > 0
    case AttemptEvent(_, _, time) => time >= 0
    case _ => true
  }

  lemma ApplyTimes(net: Net, s: State, e: Event)
    requires Inv(net, s) && TimesOk(s.info) && PositiveTimes(e)
    ensures TimesOk(Apply(net, s, e).info)
  {
    hide Inv, AddSingle, Good, ResolveOne, Swap, TimesOk;
    match e
    case AddEvent(a, nTime, nServices, source, timePenalty, now, random) =>
      AddSingleTimes(net, s, a, nTime, nServices, source, timePenalty, now, random);
    case GoodEvent(a, time) => GoodTimes(net, s, a, true, time);
    case AttemptEvent(a, countFailure, time) => AttemptTimes(net, s, a, countFailure, time);
    case ConnectedEvent(a, time) => OnEntryTimes(net, s, a, info => ConnectedInfo(info, time));
    case SetServicesEvent(a, nServices) => OnEntryTimes(net, s, a, (info: AddrInfo) => info.(nServices := nServices));
    case ResolveEvent(id, now) =>
      if id in s.collisions {
        ResolveOneTimes(net, s, id, now);
      }
    case SwapEvent(i, j) => SwapTimes(s, i, j);
  }

  lemma OnEntryTimes(net: Net, s: State, a: Service, f: AddrInfo -> AddrInfo)
    requires TimesOk(s.info) && forall info :: TimeOk(info) ==> TimeOk(f(info))
    ensures TimesOk(OnEntry(s, a, f).info)
  {
    if a in s.addr && s.addr[a] in s.info {
      assert TimeOk(s.info[s.addr[a]]);
    }
  }

  lemma SwapTimes(s: State, i: nat, j: nat)
    requires TimesOk(s.info)
    ensures TimesOk(Swap(s, i, j).info)
  {
  }

  /** Over a whole run whose successes and attempts have such times the self-check has nothing to object to in the times. */
  lemma {:induction false} RunTimes(net: Net, s: State, events: seq<Event>)
    requires Inv(net, s) && TimesOk(s.info) && forall i | 0 <= i < |events| :: PositiveTimes(events[i])
    ensures TimesOk(Run(net, s, events).info)
    decreases |events|
  {
    hide Inv, Apply, TimesOk;
    if events != [] {
      ApplyOk(net, s, events[0]);
      ApplyTimes(net, s, events[0]);
      RunTimes(net, Apply(net, s, events[0]), events[1..]);
    }
  }
}
