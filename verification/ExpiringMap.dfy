/**
The in-memory maps with expiring entries: the session store (internal/session/store.go) and the
pending links (internal/auth/linking.go). Each method below is one lock region; a Get of the
session store is two of them, and anything may happen in between.
*/
module ExpiringMap {
  import opened Wrappers

  type Id = string
  type Time = int

  /** `expiry` is None for Go's zero time, which never expires. */
  datatype Entry<+V> = Entry(value: V, expiry: Option<Time>)

  predicate Expired<V>(e: Entry<V>, now: Time) { e.expiry.Some? && e.expiry.value < now }

  /** Reading an entry at a time. */
  function Live<V>(e: Option<Entry<V>>, now: Time): Option<V> {
    if e.Some? && !Expired(e.value, now) then Some(e.value.value) else None
  }

  function Find<V>(m: map<Id, Entry<V>>, id: Id): Option<Entry<V>> { if id in m then Some(m[id]) else None }

  function Swept<V>(m: map<Id, Entry<V>>, now: Time): map<Id, Entry<V>> {
    map id | id in m && !Expired(m[id], now) :: m[id]
  }

  const DEFAULT_TTL: int := 600

  /** `putPending` replaces a ttl that is not positive by ten minutes. */
  function PendingEntry<V>(link: V, ttl: int, now: Time): Entry<V> {
    Entry(link, Some(now + (if ttl <= 0 then DEFAULT_TTL else ttl)))
  }

  // ---------- The state machine ----------

  /** A Get that has read its entry and has not answered yet. */
  datatype Reading<+V> = Reading(id: Id, seen: Entry<V>)

  datatype Answer<+V> = Answer(result: Option<V>, at: Time)

  /** What a store that forgets nothing held when the Get read, and when that was. */
  datatype Lookup<+V> = Lookup(entry: Option<Entry<V>>, at: Time)

  /**
  `data` is the map of the program. `kept` is the reference: it forgets an entry only when it is
  deleted. Gets are numbered; `reading` holds those between their lock regions.
  */
  datatype State<V> = State(
    data: map<Id, Entry<V>>,
    kept: map<Id, Entry<V>>,
    created: set<Id>,
    clock: Time,
    reading: map<nat, Reading<V>>,
    lookups: map<nat, Lookup<V>>,
    answers: map<nat, Answer<V>>)

  datatype Action<V> =
    | Tick(now: Time)
    | Put(id: Id, entry: Entry<V>)
    | BeginGet(get: nat, id: Id)
    | FinishGet(get: nat, now: Time)
    | GetLocked(get: nat, id: Id)
    | Delete(id: Id)
    | Sweep(now: Time)

  function Start<V>(clock: Time): State<V> { State(map[], map[], {}, clock, map[], map[], map[]) }

  /** Ids are never generated twice, the clock is monotone, and `now` was read before the lock was taken. */
  predicate Enabled<V>(s: State<V>, a: Action<V>) {
    match a
    case Tick(now) => s.clock <= now
    case Put(id, _) => id !in s.created
    case BeginGet(get, _) => get !in s.lookups
    case FinishGet(get, now) => get in s.reading && get in s.lookups && s.lookups[get].at <= now <= s.clock
    case GetLocked(get, _) => get !in s.lookups
    case Delete(_) => true
    case Sweep(now) => now <= s.clock
  }

  function Apply<V>(s: State<V>, a: Action<V>): State<V> {
    if !Enabled(s, a) then s
    else
      match a
      case Tick(now) => s.(clock := now)
      case Put(id, entry) => s.(data := s.data[id := entry], kept := s.kept[id := entry], created := s.created + {id})
      case BeginGet(get, id) =>
        var asked := s.(lookups := s.lookups[get := Lookup(Find(s.kept, id), s.clock)]);
        if id in s.data then asked.(reading := s.reading[get := Reading(id, s.data[id])])
        else asked.(answers := s.answers[get := Answer(None, s.clock)])
      case FinishGet(get, now) =>
        var r := s.reading[get];
        var answered := s.(reading := s.reading - {get},
                            answers := s.answers[get := Answer(Live(Some(r.seen), now), now)]);
        if Expired(r.seen, now) then answered.(data := s.data - {r.id}) else answered
      case GetLocked(get, id) =>
        var answered := s.(
          lookups := s.lookups[get := Lookup(Find(s.kept, id), s.clock)],
          answers := s.answers[get := Answer(Live(Find(s.data, id), s.clock), s.clock)]);
        if id in s.data && Expired(s.data[id], s.clock) then answered.(data := s.data - {id}) else answered
      case Delete(id) => s.(data := s.data - {id}, kept := s.kept - {id})
      case Sweep(now) => s.(data := Swept(s.data, now))
  }

  function Run<V>(s: State<V>, actions: seq<Action<V>>): State<V>
    decreases |actions|
  {
    if actions == [] then s else Run(Apply(s, actions[0]), actions[1..])
  }

  /** The program's map is the reference without some expired entries. */
  ghost predicate Covers<V>(s: State<V>) {
    && (forall id <- s.data :: id in s.kept && s.kept[id] == s.data[id])
    && (forall id <- s.kept :: id in s.data || Expired(s.kept[id], s.clock))
    && s.kept.Keys <= s.created
  }

  /**
  A Get between its lock regions holds what the reference held when it read, and still holds unless
  it was deleted.
  */
  ghost predicate ReadingOk<V>(s: State<V>, get: nat)
    requires get in s.reading
  {
    var r := s.reading[get];
    && get in s.lookups && s.lookups[get].entry == Some(r.seen) && s.lookups[get].at <= s.clock
    && r.id in s.created && (r.id in s.kept ==> s.kept[r.id] == r.seen)
  }

  ghost predicate ReadingsOk<V>(s: State<V>) { forall get <- s.reading :: ReadingOk(s, get) }

  ghost predicate AnswersOk<V>(s: State<V>) {
    forall get <- s.answers :: get in s.lookups && AnsweredAsReference(s.lookups[get], s.answers[get], s.clock)
  }

  /** The answer is that of a store that forgets only on Delete, filtered by expiry, at a time within the Get. */
  ghost predicate AnsweredAsReference<V>(l: Lookup<V>, a: Answer<V>, clock: Time) {
    a.result == Live(l.entry, a.at) && l.at <= a.at <= clock
  }

  ghost predicate Inv<V>(s: State<V>) { Covers(s) && ReadingsOk(s) && AnswersOk(s) }

  lemma ApplyKeepsCovers<V>(s: State<V>, a: Action<V>)
    requires Inv(s)
    ensures Covers(Apply(s, a))
  {
    hide AnswersOk, Live;
    if a.FinishGet? && Enabled(s, a) {
      assert ReadingOk(s, a.get);
    }
  }

  lemma ApplyKeepsReadings<V>(s: State<V>, a: Action<V>)
    requires Inv(s)
    ensures ReadingsOk(Apply(s, a))
  {
    hide AnswersOk, Live, Swept;
    var s' := Apply(s, a);
    forall get <- s'.reading ensures ReadingOk(s', get) {
      assert get in s.reading ==> ReadingOk(s, get);
    }
  }

  lemma ApplyKeepsAnswers<V>(s: State<V>, a: Action<V>)
    requires Inv(s)
    ensures AnswersOk(Apply(s, a))
  {
    hide Swept;
    if a.FinishGet? && Enabled(s, a) {
      assert ReadingOk(s, a.get);
    }
  }

  lemma ApplyKeepsInv<V>(s: State<V>, a: Action<V>)
    requires Inv(s)
    ensures Inv(Apply(s, a))
  {
    hide Covers, ReadingsOk, AnswersOk, Apply;
    ApplyKeepsCovers(s, a);
    ApplyKeepsReadings(s, a);
    ApplyKeepsAnswers(s, a);
  }

  lemma {:induction false} RunKeepsInv<V>(s: State<V>, actions: seq<Action<V>>)
    requires Inv(s)
    ensures Inv(Run(s, actions))
    decreases |actions|
  {
    hide Inv, Apply;
    if actions != [] {
      ApplyKeepsInv(s, actions[0]);
      RunKeepsInv(Apply(s, actions[0]), actions[1..]);
    }
  }

  /**
  Refinement: under any interleaving every Get answers as a store that forgets only on Delete and
  filters by expiry.
  */
  lemma EveryGetAnswersAsTheReference<V>(clock: Time, actions: seq<Action<V>>, get: nat)
    requires get in Run(Start<V>(clock), actions).answers
    ensures var s := Run(Start<V>(clock), actions);
            && get in s.lookups
            && s.answers[get].result == Live(s.lookups[get].entry, s.answers[get].at)
            && s.lookups[get].at <= s.answers[get].at <= s.clock
  {
    hide Run, Apply;
    RunKeepsInv(Start<V>(clock), actions);
  }

  /**
  The same in terms of the entry: a Get has a result exactly when its lookup found an entry that has
  no expiry or whose expiry is not over at the time of the answer, and the result is its value.
  */
  lemma EveryGetAnswersExactly<V>(clock: Time, actions: seq<Action<V>>, get: nat)
    requires get in Run(Start<V>(clock), actions).answers
    ensures var s := Run(Start<V>(clock), actions);
            && get in s.lookups
            && var entry, answer := s.lookups[get].entry, s.answers[get];
               && (answer.result.Some? <==>
                     entry.Some? && (entry.value.expiry.None? || answer.at <= entry.value.expiry.value))
               && (answer.result.Some? ==> answer.result.value == entry.value.value)
               && s.lookups[get].at <= answer.at <= s.clock
  {
    hide Run;
    EveryGetAnswersAsTheReference<V>(clock, actions, get);
  }

  /** What a Get looks up is what has been put under its id and not deleted. */
  lemma LookupExactly<V>(s: State<V>, get: nat, id: Id)
    requires get !in s.lookups
    ensures forall a <- [BeginGet(get, id), GetLocked(get, id)] ::
              && get in Apply(s, a).lookups && Apply(s, a).lookups[get].at == s.clock
              && (id in s.kept ==> Apply(s, a).lookups[get].entry == Some(s.kept[id]))
              && (id !in s.kept ==> Apply(s, a).lookups[get].entry == None)
  {
  }

  /** A deleted entry is not there again: its id is not generated a second time. */
  lemma {:induction false} DeletedStaysDeleted<V>(s: State<V>, actions: seq<Action<V>>, id: Id)
    requires Inv(s) && id in s.created && id !in s.kept
    ensures var s' := Run(s, actions); id !in s'.kept && id !in s'.data
    decreases |actions|
  {
    if actions == [] {
      hide ReadingsOk, AnswersOk;
    } else {
      hide Inv, Apply;
      ApplyKeepsInv(s, actions[0]);
      StaysDeletedOnce(s, actions[0], id);
      DeletedStaysDeleted(Apply(s, actions[0]), actions[1..], id);
    }
  }

  lemma StaysDeletedOnce<V>(s: State<V>, a: Action<V>, id: Id)
    requires id in s.created && id !in s.kept
    ensures id in Apply(s, a).created && id !in Apply(s, a).kept
  {
    hide Live, Swept, Find;
  }

  /** What the reference has kept changes only when it is deleted. */
  lemma {:induction false} KeptUntilDeleted<V>(s: State<V>, actions: seq<Action<V>>, id: Id)
    requires id in s.kept && s.kept.Keys <= s.created && Delete(id) !in actions
    ensures var s' := Run(s, actions); id in s'.kept && s'.kept[id] == s.kept[id]
    decreases |actions|
  {
    if actions != [] {
      KeptUntilDeleted(Apply(s, actions[0]), actions[1..], id);
    }
  }

  /** No entry that is neither expired nor deleted is ever lost, by a sweep or by a late Get. */
  lemma NoLiveEntryIsLost<V>(s: State<V>, actions: seq<Action<V>>, id: Id)
    requires Inv(s) && id in s.kept && Delete(id) !in actions
    requires !Expired(s.kept[id], Run(s, actions).clock)
    ensures var s' := Run(s, actions); id in s'.data && s'.data[id] == s.kept[id]
  {
    hide Run, Apply;
    RunKeepsInv(s, actions);
    KeptUntilDeleted(s, actions, id);
  }

  /** A pending link can be read back until its ttl, counted from when `putPending` read the clock, is over. */
  lemma PendingLinkLivesItsTtl<V>(s: State<V>, actions: seq<Action<V>>, token: Id, link: V, ttl: int, now: Time)
    requires Inv(s) && token !in s.created && now <= s.clock && Delete(token) !in actions
    requires Run(Apply(s, Put(token, PendingEntry(link, ttl, now))), actions).clock
             <= now + (if ttl <= 0 then DEFAULT_TTL else ttl)
    ensures var s' := Run(Apply(s, Put(token, PendingEntry(link, ttl, now))), actions);
            Live(Find(s'.data, token), s'.clock) == Some(link)
  {
    hide Run;
    var a := Put(token, PendingEntry(link, ttl, now));
    ApplyKeepsInv(s, a);
    NoLiveEntryIsLost(Apply(s, a), actions, token);
  }

  /** Exactly as long: reading the link gives it up to its ttl, ten minutes if none is given, and nothing after. */
  lemma PendingLinkExactly<V>(
    s: State<V>, actions: seq<Action<V>>, token: Id, link: V, ttl: int, now: Time, get: nat)
    requires Inv(s) && token !in s.created && now <= s.clock && Delete(token) !in actions
    requires get !in Run(Apply(s, Put(token, PendingEntry(link, ttl, now))), actions).lookups
    ensures var s' := Run(Apply(s, Put(token, PendingEntry(link, ttl, now))), actions);
            var read := Apply(s', GetLocked(get, token));
            && get in read.answers
            && read.answers[get].result == if s'.clock <= now + (if ttl > 0 then ttl else 600) then Some(link) else None
  {
    hide Run, Apply;
    var a := Put(token, PendingEntry(link, ttl, now));
    var put := Apply(s, a);
    assert token in put.kept && put.kept[token] == PendingEntry(link, ttl, now) && put.kept.Keys <= put.created by {
      PutKeeps(s, token, PendingEntry(link, ttl, now));
    }
    ApplyKeepsInv(s, a);
    RunKeepsInv(put, actions);
    KeptUntilDeleted(put, actions, token);
    var s' := Run(put, actions);
    if !Expired(s'.kept[token], s'.clock) { NoLiveEntryIsLost(put, actions, token); }
    ReadLocked(s', get, token);
  }

  lemma PutKeeps<V>(s: State<V>, id: Id, entry: Entry<V>)
    requires Inv(s) && id !in s.created
    ensures var put := Apply(s, Put(id, entry));
            id in put.kept && put.kept[id] == entry && put.kept.Keys <= put.created
  {
    hide ReadingsOk, AnswersOk;
  }

  lemma ReadLocked<V>(s: State<V>, get: nat, id: Id)
    requires get !in s.lookups
    ensures get in Apply(s, GetLocked(get, id)).answers
    ensures Apply(s, GetLocked(get, id)).answers[get] == Answer(Live(Find(s.data, id), s.clock), s.clock)
  {
  }

  // ---------- The maps themselves ----------

  class Store<V> {
    var data: map<Id, Entry<V>>
    ghost var machine: State<V>

    ghost predicate Valid()
      reads this
    {
      data == machine.data && Inv(machine)
    }

    constructor (ghost clock: Time)
      ensures Valid() && machine == Start(clock)
    {
      data, machine := map[], Start(clock);
    }

    /** `id` is a fresh random id. */
    method Create(id: Id, entry: Entry<V>)
      requires Valid() && id !in machine.created
      modifies this
      ensures Valid() && machine == Apply(old(machine), Put(id, entry))
      ensures data == old(data)[id := entry]
    {
      ApplyKeepsInv(machine, Put(id, entry));
      data := data[id := entry];
      machine := Apply(machine, Put(id, entry));
    }

    /** First lock region of Get; a missing id is the answer. */
    method ReadEntry(ghost get: nat, id: Id) returns (seen: Option<Entry<V>>)
      requires Valid() && get !in machine.lookups
      modifies this`machine
      ensures Valid() && machine == Apply(old(machine), BeginGet(get, id))
      ensures seen == Find(data, id)
      ensures seen.Some? ==> get in machine.reading && machine.reading[get] == Reading(id, seen.value)
    {
      ApplyKeepsInv(machine, BeginGet(get, id));
      seen := if id in data then Some(data[id]) else None;
      machine := Apply(machine, BeginGet(get, id));
    }

    /** The rest of Get for an entry that was there: check the expiry, and delete under the second lock. */
    method CheckEntry(ghost get: nat, id: Id, seen: Entry<V>, now: Time) returns (result: Option<V>)
      requires Valid() && Enabled(machine, FinishGet(get, now)) && machine.reading[get] == Reading(id, seen)
      modifies this
      ensures Valid() && machine == Apply(old(machine), FinishGet(get, now))
      ensures result == if seen.expiry.None? || now <= seen.expiry.value then Some(seen.value) else None
      ensures data == if result.Some? then old(data) else old(data) - {id}
      ensures get in machine.answers && machine.answers[get] == Answer(result, now)
    {
      ApplyKeepsInv(machine, FinishGet(get, now));
      machine := Apply(machine, FinishGet(get, now));
      if Expired(seen, now) {
        data := data - {id};
        return None;
      }
      return Some(seen.value);
    }

    /** `getPending`: the same under one lock. */
    method GetPending(ghost get: nat, id: Id, now: Time) returns (result: Option<V>)
      requires Valid() && get !in machine.lookups && now == machine.clock
      modifies this
      ensures Valid() && machine == Apply(old(machine), GetLocked(get, id))
      ensures result.Some? <==>
                id in old(data) && (old(data)[id].expiry.None? || now <= old(data)[id].expiry.value)
      ensures result.Some? ==> result.value == old(data)[id].value
      ensures data == if result.Some? then old(data) else old(data) - {id}
      ensures get in machine.answers && machine.answers[get] == Answer(result, now)
    {
      ApplyKeepsInv(machine, GetLocked(get, id));
      machine := Apply(machine, GetLocked(get, id));
      if id !in data {
        return None;
      }
      var entry := data[id];
      if Expired(entry, now) {
        data := data - {id};
        return None;
      }
      return Some(entry.value);
    }

    method DeleteEntry(id: Id)
      requires Valid()
      modifies this
      ensures Valid() && machine == Apply(old(machine), Delete(id))
      ensures data == old(data) - {id}
    {
      ApplyKeepsInv(machine, Delete(id));
      data := data - {id};
      machine := Apply(machine, Delete(id));
    }

    /** One tick of the sweeper: it visits every key, in any order. */
    method SweepOnce(now: Time)
      requires Valid() && now <= machine.clock
      modifies this
      ensures Valid() && machine == Apply(old(machine), Sweep(now))
      ensures forall id :: id in data <==>
                id in old(data) && !(old(data)[id].expiry.Some? && old(data)[id].expiry.value < now)
      ensures forall id <- data :: data[id] == old(data)[id]
    {
      ApplyKeepsInv(machine, Sweep(now));
      ghost var before := data;
      var remaining := data.Keys;
      while remaining != {}
        invariant remaining <= before.Keys
        invariant data == map id | id in before && (id in remaining || !Expired(before[id], now)) :: before[id]
        invariant machine == old(machine)
        decreases remaining
      {
        var id :| id in remaining;
        if Expired(data[id], now) {
          data := data - {id};
        }
        remaining := remaining - {id};
      }
      machine := Apply(machine, Sweep(now));
    }
  }
}
