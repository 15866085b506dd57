/** The roster of live games: who is listed under which playname, which games have ended, and how many
    watch each. Games are named by the order they were registered in. */
module LiveRegistry {
  import opened Options

  type Name = string

  datatype Live = Live(name: Name, unlisted: bool, ended: bool, watchers: nat)

  datatype State = State(games: map<Name, nat>, live: seq<Live>)

  /** A handle's drop is two steps, with others free to come between: it takes the entry out of the map
      if it is still its own, and then flips `ended`. */
  datatype Event = Register(name: Name) | Unlist(g: nat) | End(g: nat) | Join(g: nat) | Leave(g: nat)

  predicate Enabled(s: State, e: Event) {
    match e
    case Register(_) => true
    case Unlist(g) => g < |s.live| && !s.live[g].unlisted
    case End(g) => g < |s.live| && s.live[g].unlisted && !s.live[g].ended
    case Join(g) => g < |s.live|
    case Leave(g) => g < |s.live| && s.live[g].watchers > 0
  }

  function Next(s: State, e: Event): State
    requires Enabled(s, e)
  {
    match e
    case Register(name) => State(s.games[name := |s.live|], s.live + [Live(name, false, false, 0)])
    case Unlist(g) =>
      var name := s.live[g].name;
      State(if name in s.games && s.games[name] == g then s.games - {name} else s.games,
            s.live[g := s.live[g].(unlisted := true)])
    case End(g) => s.(live := s.live[g := s.live[g].(ended := true)])
    case Join(g) => s.(live := s.live[g := s.live[g].(watchers := s.live[g].watchers + 1)])
    case Leave(g) => s.(live := s.live[g := s.live[g].(watchers := s.live[g].watchers - 1)])
  }

  // ----- history -----

  ghost predicate Happens(events: seq<Event>)
    decreases |events|, 0
  {
    events == [] ||
    (Happens(events[..|events| - 1]) && Enabled(After(events[..|events| - 1]), events[|events| - 1]))
  }

  ghost function After(events: seq<Event>): State
    requires Happens(events)
    decreases |events|, 1
  {
    if events == [] then State(map[], [])
    else Next(After(events[..|events| - 1]), events[|events| - 1])
  }

  function Count(events: seq<Event>, e: Event): nat { multiset(events)[e] }

  /** How many games were registered. */
  function Registered(events: seq<Event>): nat {
    if events == [] then 0
    else Registered(events[..|events| - 1]) + (if events[|events| - 1].Register? then 1 else 0)
  }

  /** The game most recently registered under `name`. */
  function Latest(events: seq<Event>, name: Name): Option<nat> {
    if events == [] then None
    else
      var front, last := events[..|events| - 1], events[|events| - 1];
      if last == Register(name) then Some(Registered(front)) else Latest(front, name)
  }

  // What the registry says, read off the events alone.

  ghost predicate MapAgrees(s: State, events: seq<Event>) {
    && (forall name :: name in s.games <==>
          Latest(events, name).Some? && Unlist(Latest(events, name).value) !in events)
    && (forall name :: name in s.games ==> Latest(events, name) == Some(s.games[name]))
  }

  ghost predicate GameAgrees(live: Live, g: nat, events: seq<Event>) {
    && (live.unlisted <==> Unlist(g) in events)
    && (live.ended <==> End(g) in events)
    && live.watchers == Count(events, Join(g)) - Count(events, Leave(g))
  }

  ghost predicate GamesAgree(s: State, events: seq<Event>) {
    |s.live| == Registered(events) && forall g :: 0 <= g < |s.live| ==> GameAgrees(s.live[g], g, events)
  }

  /** Events speak of registered games, and each name's latest game bears that name. */
  ghost predicate Known(s: State, events: seq<Event>) {
    && (forall name :: Latest(events, name).Some? ==>
          Latest(events, name).value < |s.live| && s.live[Latest(events, name).value].name == name)
    && (forall e :: e in events && !e.Register? ==> e.g < |s.live|)
  }

  lemma LatestNext(front: seq<Event>, last: Event, name: Name)
    ensures Latest(front + [last], name) == if last == Register(name) then Some(Registered(front)) else Latest(front, name)
    ensures Registered(front + [last]) == Registered(front) + (if last.Register? then 1 else 0)
  {
    assert (front + [last])[..|front|] == front;
  }

  lemma KnownNext(s: State, front: seq<Event>, last: Event)
    requires Known(s, front) && GamesAgree(s, front) && Enabled(s, last)
    ensures Known(Next(s, last), front + [last])
  {
    hide Latest, Registered, GameAgrees;
    forall name { LatestNext(front, last, name); }
  }

  lemma MapNext(s: State, front: seq<Event>, last: Event)
    requires MapAgrees(s, front) && Known(s, front) && GamesAgree(s, front) && Enabled(s, last)
    ensures MapAgrees(Next(s, last), front + [last])
  {
    hide Latest, Registered, GameAgrees;
    var events, next := front + [last], Next(s, last);
    forall name
      ensures name in next.games <==> Latest(events, name).Some? && Unlist(Latest(events, name).value) !in events
      ensures name in next.games ==> Latest(events, name) == Some(next.games[name])
    {
      LatestNext(front, last, name);
    }
  }

  lemma CountNext(front: seq<Event>, last: Event, e: Event)
    ensures Count(front + [last], e) == Count(front, e) + (if last == e then 1 else 0)
  {
    assert multiset(front + [last]) == multiset(front) + multiset{last};
  }

  lemma NeverHappened(events: seq<Event>, e: Event)
    requires e !in events
    ensures Count(events, e) == 0
  {
  }

  lemma GamesNext(s: State, front: seq<Event>, last: Event)
    requires Known(s, front) && GamesAgree(s, front) && Enabled(s, last)
    ensures GamesAgree(Next(s, last), front + [last])
  {
    hide Latest, Registered, Count;
    var events, next := front + [last], Next(s, last);
    LatestNext(front, last, "");
    forall g | 0 <= g < |next.live| ensures GameAgrees(next.live[g], g, events) {
      CountNext(front, last, Join(g));
      CountNext(front, last, Leave(g));
      if g < |s.live| {
        assert GameAgrees(s.live[g], g, front);
      } else {
        NeverHappened(front, Join(g));
        NeverHappened(front, Leave(g));
      }
    }
  }

  /** A playname maps to its most recently registered game exactly while that game's handle lives;
      `ended` holds exactly once the handle's drop has said so; the watcher count is the live guards. */
  lemma {:induction false} RegistryAgreesWithHistory(events: seq<Event>)
    requires Happens(events)
    ensures MapAgrees(After(events), events) && GamesAgree(After(events), events)
    ensures Known(After(events), events)
    decreases |events|
  {
    if events == [] {
    } else {
      var front, last := events[..|events| - 1], events[|events| - 1];
      RegistryAgreesWithHistory(front);
      assert events == front + [last];
      KnownNext(After(front), front, last);
      MapNext(After(front), front, last);
      GamesNext(After(front), front, last);
    }
  }

  lemma HappensNext(events: seq<Event>, e: Event)
    requires Happens(events) && Enabled(After(events), e)
    ensures Happens(events + [e]) && After(events + [e]) == Next(After(events), e)
  {
    assert (events + [e])[..|events|] == events;
  }

  /** A game ends only after it was taken off the list. */
  lemma {:induction false} EndComesLater(events: seq<Event>, g: nat)
    requires Happens(events)
    ensures End(g) in events ==> Unlist(g) in events
    decreases |events|
  {
    if events == [] {
    } else {
      var front, last := events[..|events| - 1], events[|events| - 1];
      assert events == front + [last];
      EndComesLater(front, g);
      if last == End(g) { RegistryAgreesWithHistory(front); }
    }
  }

  // ----- the registry -----

  /** `events` is everything that has happened to it. Who holds a handle or a guard is settled by it too. */
  class Registry {
    var games: map<Name, nat>
    var live: seq<Live>
    ghost var events: seq<Event>

    function Abstract(): State
      reads this
    {
      State(games, live)
    }

    ghost predicate Valid()
      reads this
    {
      Happens(events) && Abstract() == After(events)
    }

    constructor ()
      ensures Valid() && events == []
    {
      games, live, events := map[], [], [];
    }

    /** `register`: a second game under one playname replaces the first. */
    method Add(name: Name) returns (g: nat)
      requires Valid()
      modifies this
      ensures Valid() && events == old(events) + [Register(name)] && g == Registered(old(events))
    {
      RegistryAgreesWithHistory(events);
      HappensNext(events, Register(name));
      g := |live|;
      live := live + [Live(name, false, false, 0)];
      games := games[name := g];
      events := events + [Register(name)];
    }

    /** `get`: the game most recently registered under the name, while its handle lives. */
    method Get(name: Name) returns (g: Option<nat>)
      requires Valid()
      ensures g == if Latest(events, name).Some? && Unlist(Latest(events, name).value) !in events
                   then Latest(events, name) else None
    {
      RegistryAgreesWithHistory(events);
      g := if name in games then Some(games[name]) else None;
    }

    /** `LiveHandle::drop`, once for each registered game: leaves a newer game under the same name alone. */
    method DropHandle(g: nat)
      requires Valid() && g < Registered(events) && Unlist(g) !in events
      modifies this
      ensures Valid() && events == old(events) + [Unlist(g)] + [End(g)]
    {
      RegistryAgreesWithHistory(events);
      EndComesLater(events, g);
      HappensNext(events, Unlist(g));
      HappensNext(events + [Unlist(g)], End(g));
      var name := live[g].name;
      if name in games && games[name] == g {
        games := games - {name};
      }
      live := live[g := live[g].(unlisted := true)];
      live := live[g := live[g].(ended := true)];
      events := events + [Unlist(g)] + [End(g)];
    }

    /** `WatcherGuard::new` and its drop. */
    method Watch(g: nat)
      requires Valid() && g < Registered(events)
      modifies this`live, this`events
      ensures Valid() && events == old(events) + [Join(g)]
    {
      RegistryAgreesWithHistory(events);
      HappensNext(events, Join(g));
      live := live[g := live[g].(watchers := live[g].watchers + 1)];
      events := events + [Join(g)];
    }

    method Unwatch(g: nat)
      requires Valid() && g < Registered(events) && Count(events, Leave(g)) < Count(events, Join(g))
      modifies this`live, this`events
      ensures Valid() && events == old(events) + [Leave(g)]
    {
      RegistryAgreesWithHistory(events);
      HappensNext(events, Leave(g));
      live := live[g := live[g].(watchers := live[g].watchers - 1)];
      events := events + [Leave(g)];
    }
  }
}
