/**
 Any number of handlers running at once. Every call on the cache and every call on the store is one
 atomic step; between two calls of one handler any others may take theirs.
 */
module Interleaving {
  import opened Wire
  import opened Store
  import opened Cache
  import opened InOut

  /** A Pull looks in the cache, on a miss loads from the store, and then fills the cache. */
  datatype PullPhase = Look | Load | Fill(d: Bytes)

  /** A Push fetches the newest data and version, then writes the longer data at that version. */
  datatype PushPhase = Fetch | Write(d: Bytes)

  datatype Handler =
    | PullH(keys: seq<Key>, i: nat, pull: PullPhase, out: seq<Bytes>)
    | PushH(infos: seq<DataInfo>, i: nat, push: PushPhase, currv: nat)
    | DelH(keys: seq<Key>, i: nat)

  datatype State = State(cache: Entries, db: Hashes, handlers: map<nat, Handler>) {
    function Move(id: nat, h: Handler): State {
      this.(handlers := handlers[id := h])
    }
  }

  datatype Act =
    | Arrive(h: Handler)
    | Hit(k: Key, d: Bytes)
    | Miss(k: Key)
    | LoadStore(k: Key, d: Bytes)
    | FillCache(k: Key, d: Bytes)
    | FetchNewest(k: Key)
    | WriteStore(k: Key, v: nat, d: Bytes, ok: bool)
    | FallThrough
    | Invalidate(k: Key)

  predicate IsNew(h: Handler) {
    match h
    case PullH(_, i, phase, out) => i == 0 && phase == Look && out == []
    case PushH(_, i, phase, currv) => i == 0 && phase == Fetch && currv == 0
    case DelH(_, i) => i == 0
  }

  ghost predicate Step(s: State, id: nat, act: Act, s': State) {
    if act.Arrive? then id !in s.handlers && IsNew(act.h) && s' == s.Move(id, act.h)
    else id in s.handlers && HandlerStep(s, id, s.handlers[id], act, s')
  }

  ghost predicate HandlerStep(s: State, id: nat, h: Handler, act: Act, s': State) {
    match h
    case PullH(keys, i, phase, out) => i < |keys| && PullStep(s, id, h, act, s')
    case PushH(infos, i, phase, currv) =>
      if i < |infos| then PushStep(s, id, h, act, s')
      else act == FallThrough && s' == s.Move(id, DelH(Ids(infos), 0))
    case DelH(keys, i) =>
      && i < |keys| && act == Invalidate(keys[i])
      && s' == s.Move(id, DelH(keys, i + 1)).(cache := s.cache - {keys[i]})
  }

  ghost predicate PullStep(s: State, id: nat, h: Handler, act: Act, s': State)
    requires h.PullH? && h.i < |h.keys|
  {
    var k := h.keys[h.i];
    match (h.pull, act)
    case (Look, Hit(k', d)) =>
      && k' == k && d == Lookup(s.cache, k) && d != []
      && s' == s.Move(id, PullH(h.keys, h.i + 1, Look, h.out + [d]))
    case (Look, Miss(k')) =>
      && k' == k && Lookup(s.cache, k) == []
      && s' == s.Move(id, h.(pull := Load))
    case (Load, LoadStore(k', d)) =>
      && k' == k && d == Newest(s.db, k)
      && s' == s.Move(id, h.(pull := Fill(d)))
    case (Fill(d), FillCache(k', d')) =>
      && k' == k && d' == d && IsSet(s.cache, k, d, s'.cache)
      && s' == s.Move(id, PullH(h.keys, h.i + 1, Look, h.out + [d])).(cache := s'.cache)
    case _ => false
  }

  ghost predicate PushStep(s: State, id: nat, h: Handler, act: Act, s': State)
    requires h.PushH? && h.i < |h.infos|
  {
    var kv := h.infos[h.i];
    match (h.push, act)
    case (Fetch, FetchNewest(k)) =>
      && k == kv.id
      && s' == s.Move(id, h.(push := Write(Newest(s.db, k) + kv.d), currv := VersionRead(s.db, k, h.currv)))
    case (Write(d), WriteStore(k, v, d', ok)) =>
      && k == kv.id && v == h.currv && d' == d
      && ok == (v !in Versions(s.db, k))
      && s' == s.Move(id, PushH(h.infos, h.i + 1, Fetch, h.currv)).(db := SetIfAbsent(s.db, k, v, d))
    case _ => false
  }

  // ---------------------------------------------------------------- Runs

  datatype Run = Run(states: seq<State>, ids: seq<nat>, acts: seq<Act>)

  ghost predicate IsRun(r: Run) {
    && |r.states| == |r.acts| + 1 == |r.ids| + 1
    && forall i | 0 <= i < |r.acts| :: Step(r.states[i], r.ids[i], r.acts[i], r.states[i + 1])
  }

  /** A server just started over a store: nothing cached, nobody served. */
  ghost predicate StartsFrom(r: Run, db: Hashes) {
    IsRun(r) && r.states[0] == State(map[], db, map[])
  }

  /** The step at which a Pull obtains the datum it will answer for a key. */
  predicate IsRead(act: Act, k: Key, d: Bytes) {
    act == Hit(k, d) || act == LoadStore(k, d)
  }

  // ---------------------------------------------------------------- History of the store

  /** Data under a version never changes or disappears, whatever the handlers do. */
  lemma StepKeepsData(s: State, id: nat, act: Act, s': State, k: Key, v: nat)
    requires Step(s, id, act, s') && v in Versions(s.db, k)
    ensures v in Versions(s'.db, k) && Versions(s'.db, k)[v] == Versions(s.db, k)[v]
  {
  }

  lemma {:induction false} DataIsKept(r: Run, i: nat, j: nat, k: Key, v: nat)
    requires IsRun(r) && i <= j < |r.states| && v in Versions(r.states[i].db, k)
    ensures v in Versions(r.states[j].db, k) && Versions(r.states[j].db, k)[v] == Versions(r.states[i].db, k)[v]
    decreases j
  {
    if i < j {
      DataIsKept(r, i, j - 1, k, v);
      StepKeepsData(r.states[j - 1], r.ids[j - 1], r.acts[j - 1], r.states[j], k, v);
    }
  }

  /** At most one write of a key and version ever succeeds. */
  lemma WrittenOnce(r: Run, i: nat, j: nat, k: Key, v: nat, d: Bytes, d': Bytes)
    requires IsRun(r) && i < |r.acts| && j < |r.acts|
    requires r.acts[i] == WriteStore(k, v, d, true) && r.acts[j] == WriteStore(k, v, d', true)
    ensures i == j
  {
    assert Step(r.states[i], r.ids[i], r.acts[i], r.states[i + 1]);
    assert Step(r.states[j], r.ids[j], r.acts[j], r.states[j + 1]);
    if i < j {
      DataIsKept(r, i + 1, j, k, v);
    } else if j < i {
      DataIsKept(r, j + 1, i, k, v);
    }
  }

  // ---------------------------------------------------------------- Safety

  ghost predicate Agrees(db: Hashes, k: Key, d: Bytes) {
    d == [] || d == Newest(db, k)
  }

  ghost predicate HandlerOk(db: Hashes, h: Handler) {
    match h
    case PullH(keys, i, phase, out) =>
      && |out| == i <= |keys|
      && (forall j | 0 <= j < i :: Agrees(db, keys[j], out[j]))
      && (phase.Fill? && i < |keys| ==> Agrees(db, keys[i], phase.d))
    case PushH(infos, i, phase, currv) => currv == 0
    case DelH(_, _) => true
  }

  /** Every non-empty value cached or held by a Pull is the store's, and every version is 0. */
  ghost predicate Inv(s: State) {
    && AllZero(s.db)
    && (forall k <- s.cache :: Agrees(s.db, k, s.cache[k]))
    && (forall id <- s.handlers :: HandlerOk(s.db, s.handlers[id]))
  }

  lemma PushVersionIsZero(s: State, id: nat, act: Act, s': State)
    requires Inv(s) && Step(s, id, act, s') && act.WriteStore?
    ensures act.v == 0
  {
    assert HandlerOk(s.db, s.handlers[id]);
  }

  /** With version 0 the only one in use, a key that has data is never written again. */
  lemma StepIsWriteOnce(s: State, id: nat, act: Act, s': State, k: Key)
    requires Inv(s) && Step(s, id, act, s') && Versions(s.db, k) != map[]
    ensures Versions(s'.db, k) == Versions(s.db, k)
  {
    hide Newest, HandlerOk, VersionRead;
    if act.WriteStore? {
      PushVersionIsZero(s, id, act, s');
    }
    var v :| v in Versions(s.db, k);
    assert v == 0;
  }

  lemma StepKeepsZero(s: State, id: nat, act: Act, s': State)
    requires Inv(s) && Step(s, id, act, s')
    ensures AllZero(s'.db)
  {
    forall k, v | v in Versions(s'.db, k) ensures v == 0 {
      assert v in Versions(s.db, k) || (act.WriteStore? && act.v == v);
    }
  }

  lemma StepKeepsAgreement(s: State, id: nat, act: Act, s': State, k: Key, d: Bytes)
    requires Inv(s) && Step(s, id, act, s') && Agrees(s.db, k, d)
    ensures Agrees(s'.db, k, d)
  {
    if d != [] {
      StepIsWriteOnce(s, id, act, s', k);
    }
  }

  /** What is cached after a step agreed with the store before it, and only the mover's state changes. */
  lemma StepTouches(s: State, id: nat, act: Act, s': State)
    requires Inv(s) && Step(s, id, act, s')
    ensures forall k <- s'.cache :: Agrees(s.db, k, s'.cache[k])
    ensures forall other <- s'.handlers ::
              other == id || (other in s.handlers && s'.handlers[other] == s.handlers[other])
  {
    hide Newest, VersionRead, SetIfAbsent, AllZero, Ids;
  }

  lemma StepKeepsInv(s: State, id: nat, act: Act, s': State)
    requires Inv(s) && Step(s, id, act, s')
    ensures Inv(s')
  {
    hide Step, Agrees, HandlerOk, AllZero;
    StepKeepsZero(s, id, act, s');
    StepTouches(s, id, act, s');
    forall k | k in s'.cache ensures Agrees(s'.db, k, s'.cache[k]) {
      StepKeepsAgreement(s, id, act, s', k, s'.cache[k]);
    }
    forall other | other in s'.handlers ensures HandlerOk(s'.db, s'.handlers[other]) {
      if other != id {
        StepKeepsOthers(s, id, act, s', s'.handlers[other]);
      } else {
        StepKeepsMover(s, id, act, s');
      }
    }
  }

  lemma StepKeepsOthers(s: State, id: nat, act: Act, s': State, h: Handler)
    requires Inv(s) && Step(s, id, act, s') && HandlerOk(s.db, h)
    ensures HandlerOk(s'.db, h)
  {
    if h.PullH? {
      forall j | 0 <= j < h.i ensures Agrees(s'.db, h.keys[j], h.out[j]) {
        StepKeepsAgreement(s, id, act, s', h.keys[j], h.out[j]);
      }
      if h.pull.Fill? && h.i < |h.keys| {
        StepKeepsAgreement(s, id, act, s', h.keys[h.i], h.pull.d);
      }
    }
  }

  lemma StepKeepsMover(s: State, id: nat, act: Act, s': State)
    requires Inv(s) && Step(s, id, act, s')
    ensures id in s'.handlers && HandlerOk(s'.db, s'.handlers[id])
  {
    hide Step, HandlerOk;
    MoverAgreed(s, id, act, s');
    StepKeepsOthers(s, id, act, s', s'.handlers[id]);
  }

  lemma MoverAgreed(s: State, id: nat, act: Act, s': State)
    requires Inv(s) && Step(s, id, act, s')
    ensures id in s'.handlers && HandlerOk(s.db, s'.handlers[id])
  {
    hide Newest, SetIfAbsent, VersionRead, IsSet, Ids, AllZero;
    if act.FetchNewest? {
      VersionReadIsZero(s.db, act.k);
    }
  }

  lemma VersionReadIsZero(db: Hashes, k: Key)
    requires AllZero(db)
    ensures VersionRead(db, k, 0) == 0
  {
  }

  /** In every state reached from a store whose versions are all 0, nothing cached or held is wrong. */
  lemma {:induction false} AlwaysCoherent(r: Run, db: Hashes, i: nat)
    requires StartsFrom(r, db) && AllZero(db) && i < |r.states|
    ensures Inv(r.states[i])
  {
    if i > 0 {
      AlwaysCoherent(r, db, i - 1);
      StepKeepsInv(r.states[i - 1], r.ids[i - 1], r.acts[i - 1], r.states[i]);
    }
  }

  lemma {:induction false} NewestIsKept(r: Run, db: Hashes, i: nat, j: nat, k: Key)
    requires StartsFrom(r, db) && AllZero(db) && i <= j < |r.states|
    requires Newest(r.states[i].db, k) != []
    ensures Newest(r.states[j].db, k) == Newest(r.states[i].db, k)
    decreases j
  {
    hide Step, Inv;
    if i < j {
      NewestIsKept(r, db, i, j - 1, k);
      AlwaysCoherent(r, db, j - 1);
      StepIsWriteOnce(r.states[j - 1], r.ids[j - 1], r.acts[j - 1], r.states[j], k);
    }
  }

  lemma ReadIsNewest(s: State, id: nat, act: Act, s': State, k: Key, d: Bytes)
    requires Inv(s) && Step(s, id, act, s') && IsRead(act, k, d)
    ensures d == Newest(s.db, k)
  {
  }

  /** Over versions 0 only, every read gives what the store holds at that moment: the cache cannot be noticed. */
  lemma ReadsAreCurrent(r: Run, db: Hashes, i: nat, k: Key, d: Bytes)
    requires StartsFrom(r, db) && AllZero(db) && i < |r.acts| && IsRead(r.acts[i], k, d)
    ensures d == Newest(r.states[i].db, k)
  {
    AlwaysCoherent(r, db, i);
    ReadIsNewest(r.states[i], r.ids[i], r.acts[i], r.states[i + 1], k, d);
  }

  /** Over versions 0 only, once a Pull has read non-empty data for a key, every later read of it gives the same. */
  lemma ReadsAgree(r: Run, db: Hashes, i: nat, j: nat, k: Key, d: Bytes, d': Bytes)
    requires StartsFrom(r, db) && AllZero(db) && i <= j < |r.acts|
    requires IsRead(r.acts[i], k, d) && d != [] && IsRead(r.acts[j], k, d')
    ensures d' == d
  {
    ReadsAreCurrent(r, db, i, k, d);
    ReadsAreCurrent(r, db, j, k, d');
    NewestIsKept(r, db, i, j, k);
  }

  /** Over an empty store every key is a register written at most once: version 0 is all there ever is. */
  lemma WriteOnceRegisters(r: Run, i: nat, k: Key)
    requires StartsFrom(r, map[]) && i < |r.states|
    ensures forall v <- Versions(r.states[i].db, k) :: v == 0
    ensures |Versions(r.states[i].db, k)| <= 1
  {
    AlwaysCoherent(r, map[], i);
    var h := Versions(r.states[i].db, k);
    if h != map[] {
      assert h.Keys == {0};
    }
  }

  // ---------------------------------------------------------------- Keys that have data from the start

  /** No cached, held or pending value is at odds with the data a key has, and no write can add to it. */
  ghost predicate Settled(s: State, k: Key, h: Hash) {
    && h != map[] && Versions(s.db, k) == h
    && Agrees(s.db, k, Lookup(s.cache, k))
    && forall id <- s.handlers :: HandlerSettled(s.db, k, s.handlers[id])
  }

  ghost predicate HandlerSettled(db: Hashes, k: Key, h: Handler) {
    match h
    case PullH(keys, i, phase, _) => phase.Fill? && i < |keys| && keys[i] == k ==> Agrees(db, k, phase.d)
    case PushH(infos, i, phase, currv) => phase.Write? && i < |infos| && infos[i].id == k ==> currv in Versions(db, k)
    case DelH(_, _) => true
  }

  lemma StepKeepsSettled(s: State, id: nat, act: Act, s': State, k: Key, h: Hash)
    requires Settled(s, k, h) && Step(s, id, act, s')
    ensures Settled(s', k, h)
  {
    hide Step;
    SettledStore(s, id, act, s', k, h);
    SettledMover(s, id, act, s', k, h);
    assert Newest(s'.db, k) == Newest(s.db, k);
  }

  lemma SettledStore(s: State, id: nat, act: Act, s': State, k: Key, h: Hash)
    requires Settled(s, k, h) && Step(s, id, act, s')
    ensures Versions(s'.db, k) == h
  {
    hide Newest;
    if act.WriteStore? {
      assert HandlerSettled(s.db, k, s.handlers[id]);
    }
  }

  lemma SettledMover(s: State, id: nat, act: Act, s': State, k: Key, h: Hash)
    requires Settled(s, k, h) && Step(s, id, act, s')
    ensures Agrees(s.db, k, Lookup(s'.cache, k))
    ensures forall other <- s'.handlers :: HandlerSettled(s.db, k, s'.handlers[other])
  {
  }

  lemma {:induction false} StaysSettled(r: Run, db: Hashes, i: nat, k: Key)
    requires StartsFrom(r, db) && Versions(db, k) != map[] && i < |r.states|
    ensures Settled(r.states[i], k, Versions(db, k))
  {
    hide Step;
    if i > 0 {
      StaysSettled(r, db, i - 1, k);
      StepKeepsSettled(r.states[i - 1], r.ids[i - 1], r.acts[i - 1], r.states[i], k, Versions(db, k));
    }
  }

  /** A key that has data from the start reads as its newest data, always and over any store. */
  lemma SettledReads(r: Run, db: Hashes, i: nat, k: Key, d: Bytes)
    requires StartsFrom(r, db) && Versions(db, k) != map[] && i < |r.acts| && IsRead(r.acts[i], k, d)
    ensures d == Newest(db, k)
  {
    StaysSettled(r, db, i, k);
    assert Step(r.states[i], r.ids[i], r.acts[i], r.states[i + 1]);
    assert Newest(r.states[i].db, k) == Newest(db, k);
  }

  // ---------------------------------------------------------------- When reads can disagree

  /** In every run, once a read of the key has given non-empty data, all later reads of it give the same. */
  ghost predicate ReadsAlwaysAgree(db: Hashes, k: Key) {
    forall r: Run, i: nat, j: nat, d: Bytes, d': Bytes |
      StartsFrom(r, db) && i <= j < |r.acts| && IsRead(r.acts[i], k, d) && d != [] && IsRead(r.acts[j], k, d') ::
      d' == d
  }

  /** In every run, each read of the key gives what the store holds at that moment. */
  ghost predicate ReadsAlwaysCurrent(db: Hashes, k: Key) {
    forall r: Run, i: nat, d: Bytes | StartsFrom(r, db) && i < |r.acts| && IsRead(r.acts[i], k, d) ::
      d == Newest(r.states[i].db, k)
  }

  /** In every state of every run, a non-empty cached value of the key is what the store holds. */
  ghost predicate AlwaysCachedRight(db: Hashes, k: Key) {
    forall r: Run, i: nat | StartsFrom(r, db) && i < |r.states| ::
      Agrees(r.states[i].db, k, Lookup(r.states[i].cache, k))
  }

  /** Appending one step to a run. */
  lemma Extend(r: Run, id: nat, act: Act, s': State) returns (r': Run)
    requires IsRun(r) && Step(r.states[|r.acts|], id, act, s')
    ensures r' == Run(r.states + [s'], r.ids + [id], r.acts + [act]) && IsRun(r')
    ensures r'.states[0] == r.states[0] && r'.states[|r'.acts|] == s'
  {
    r' := Run(r.states + [s'], r.ids + [id], r.acts + [act]);
    forall i | 0 <= i < |r'.acts|
      ensures Step(r'.states[i], r'.ids[i], r'.acts[i], r'.states[i + 1])
    {
      if i < |r.acts| {
        assert Step(r.states[i], r.ids[i], r.acts[i], r.states[i + 1]);
      }
    }
  }

  /** A handler arrives. */
  lemma Arrives(r: Run, id: nat, h: Handler) returns (r': Run)
    requires IsRun(r) && id !in r.states[|r.acts|].handlers && IsNew(h)
    ensures IsRun(r') && r'.acts == r.acts + [Arrive(h)] && r'.states[0] == r.states[0]
    ensures r'.states[|r'.acts|] == r.states[|r.acts|].Move(id, h)
  {
    r' := Extend(r, id, Arrive(h), r.states[|r.acts|].Move(id, h));
  }

  /** A Push takes its two steps for one entry apart: this is the fetch. */
  lemma Fetches(r: Run, id: nat, h: Handler) returns (r': Run)
    requires IsRun(r) && id in r.states[|r.acts|].handlers && r.states[|r.acts|].handlers[id] == h
    requires h.PushH? && h.i < |h.infos| && h.push == Fetch
    ensures var s, kv := r.states[|r.acts|], h.infos[h.i];
      && IsRun(r') && r'.acts == r.acts + [FetchNewest(kv.id)] && r'.states[0] == r.states[0]
      && r'.states[|r'.acts|] == s.Move(id, h.(push := Write(Newest(s.db, kv.id) + kv.d),
                                              currv := VersionRead(s.db, kv.id, h.currv)))
  {
    var s, kv := r.states[|r.acts|], h.infos[h.i];
    r' := Extend(r, id, FetchNewest(kv.id),
                 s.Move(id, h.(push := Write(Newest(s.db, kv.id) + kv.d), currv := VersionRead(s.db, kv.id, h.currv))));
  }

  lemma Writes(r: Run, id: nat, h: Handler) returns (r': Run)
    requires IsRun(r) && id in r.states[|r.acts|].handlers && r.states[|r.acts|].handlers[id] == h
    requires h.PushH? && h.i < |h.infos| && h.push.Write?
    ensures var s, k := r.states[|r.acts|], h.infos[h.i].id;
      && IsRun(r') && r'.acts == r.acts + [WriteStore(k, h.currv, h.push.d, h.currv !in Versions(s.db, k))]
      && r'.states[0] == r.states[0]
      && r'.states[|r'.acts|] == s.Move(id, PushH(h.infos, h.i + 1, Fetch, h.currv))
                                  .(db := SetIfAbsent(s.db, k, h.currv, h.push.d))
  {
    var s, k := r.states[|r.acts|], h.infos[h.i].id;
    r' := Extend(r, id, WriteStore(k, h.currv, h.push.d, h.currv !in Versions(s.db, k)),
                 s.Move(id, PushH(h.infos, h.i + 1, Fetch, h.currv)).(db := SetIfAbsent(s.db, k, h.currv, h.push.d)));
  }

  /** A Pull misses in the cache and loads from the store. */
  lemma Loads(r: Run, id: nat, h: Handler) returns (r': Run)
    requires IsRun(r) && id in r.states[|r.acts|].handlers && r.states[|r.acts|].handlers[id] == h
    requires h.PullH? && h.i < |h.keys| && h.pull == Look && Lookup(r.states[|r.acts|].cache, h.keys[h.i]) == []
    ensures var s, k := r.states[|r.acts|], h.keys[h.i];
      && IsRun(r') && r'.acts == r.acts + [Miss(k), LoadStore(k, Newest(s.db, k))] && r'.states[0] == r.states[0]
      && r'.states[|r'.acts|] == s.Move(id, h.(pull := Fill(Newest(s.db, k))))
  {
    var s, k := r.states[|r.acts|], h.keys[h.i];
    var r1 := Extend(r, id, Miss(k), s.Move(id, h.(pull := Load)));
    r' := Extend(r1, id, LoadStore(k, Newest(s.db, k)), s.Move(id, h.(pull := Fill(Newest(s.db, k)))));
    assert r'.acts == r.acts + [Miss(k), LoadStore(k, Newest(s.db, k))];
    assert s.Move(id, h.(pull := Load)).Move(id, h.(pull := Fill(Newest(s.db, k)))) ==
           s.Move(id, h.(pull := Fill(Newest(s.db, k))));
  }

  /** A Pull fills the cache with what it loaded; all else is evicted. */
  lemma FillsCache(r: Run, id: nat, h: Handler) returns (r': Run)
    requires IsRun(r) && id in r.states[|r.acts|].handlers && r.states[|r.acts|].handlers[id] == h
    requires h.PullH? && h.i < |h.keys| && h.pull.Fill?
    ensures var s, k := r.states[|r.acts|], h.keys[h.i];
      && IsRun(r') && r'.acts == r.acts + [FillCache(k, h.pull.d)] && r'.states[0] == r.states[0]
      && r'.states[|r'.acts|] ==
         s.Move(id, PullH(h.keys, h.i + 1, Look, h.out + [h.pull.d])).(cache := map[k := h.pull.d])
  {
    var s, k := r.states[|r.acts|], h.keys[h.i];
    r' := Extend(r, id, FillCache(k, h.pull.d),
                 s.Move(id, PullH(h.keys, h.i + 1, Look, h.out + [h.pull.d])).(cache := map[k := h.pull.d]));
  }

  /** A Pull is answered from the cache. */
  lemma Hits(r: Run, id: nat, h: Handler) returns (r': Run)
    requires IsRun(r) && id in r.states[|r.acts|].handlers && r.states[|r.acts|].handlers[id] == h
    requires h.PullH? && h.i < |h.keys| && h.pull == Look && Lookup(r.states[|r.acts|].cache, h.keys[h.i]) != []
    ensures var s, k := r.states[|r.acts|], h.keys[h.i];
      && IsRun(r') && r'.acts == r.acts + [Hit(k, Lookup(s.cache, k))] && r'.states[0] == r.states[0]
      && r'.states[|r.acts|] == s
  {
    var s, k := r.states[|r.acts|], h.keys[h.i];
    r' := Extend(r, id, Hit(k, Lookup(s.cache, k)),
                 s.Move(id, PullH(h.keys, h.i + 1, Look, h.out + [Lookup(s.cache, k)])));
  }

  /** Two Pushes race for a fresh key, one of them carrying over a version other than 0. */
  lemma RaceSetUp(db: Hashes, k1: Key, k2: Key) returns (r: Run, late: Handler)
    requires Versions(db, k1) != map[] && Versions(db, k2) == map[]
    ensures StartsFrom(r, db) && |r.acts| == 9
    ensures late == PushH([DataInfo(k1, []), DataInfo(k2, [2])], 1, Write([2]), MaxVersion(Versions(db, k1)))
    ensures var s, pull := r.states[9], PullH([k2], 0, Look, []);
      && s.cache == map[] && s.db == SetIfAbsent(db, k2, 0, [1])
      && s.handlers.Keys == {0, 1, 2, 3} && s.handlers[1] == late && s.handlers[2] == pull == s.handlers[3]
  {
    hide Newest, Step, SetIfAbsent, VersionRead;
    var first := PushH([DataInfo(k2, [1])], 0, Fetch, 0);
    var second := PushH([DataInfo(k1, []), DataInfo(k2, [2])], 0, Fetch, 0);
    var pull := PullH([k2], 0, Look, []);
    var m := MaxVersion(Versions(db, k1));
    NewestAndPresent(db, k1, k2);
    assert Newest(db, k2) + [1] == [1] && Newest(db, k2) + [2] == [2];
    r := Run([State(map[], db, map[])], [], []);
    r := Arrives(r, 0, first);
    r := Arrives(r, 1, second);
    r := Arrives(r, 2, pull);
    r := Arrives(r, 3, pull);
    r := Fetches(r, 0, first);
    r := Fetches(r, 1, second);
    r := Writes(r, 1, second.(push := Write(Newest(db, k1) + []), currv := m));
    r := Fetches(r, 1, PushH(second.infos, 1, Fetch, m));
    r := Writes(r, 0, first.(push := Write([1]), currv := 0));
    late := PushH(second.infos, 1, Write([2]), m);
  }

  lemma NewestAndPresent(db: Hashes, k1: Key, k2: Key)
    requires Versions(db, k1) != map[] && Versions(db, k2) == map[]
    ensures Newest(db, k2) == []
    ensures forall currv :: VersionRead(db, k2, currv) == currv
    ensures VersionRead(db, k1, 0) == MaxVersion(Versions(db, k1))
    ensures SetIfAbsent(db, k1, MaxVersion(Versions(db, k1)), Newest(db, k1) + []) == db
  {
  }

  /** Both Pulls read the fresh key: one before and one after the late Push writes it again. */
  lemma RacingReads(db: Hashes, k1: Key, k2: Key) returns (r: Run)
    requires Versions(db, k1) != map[] && MaxVersion(Versions(db, k1)) != 0 && Versions(db, k2) == map[]
    ensures StartsFrom(r, db) && |r.acts| == 14
    ensures r.acts[10] == LoadStore(k2, [1]) && r.acts[13] == LoadStore(k2, [2])
  {
    hide Newest, Step;
    var late;
    r, late := RaceSetUp(db, k1, k2);
    var m, pull := MaxVersion(Versions(db, k1)), PullH([k2], 0, Look, []);
    var before := SetIfAbsent(db, k2, 0, [1]);
    var after := SetIfAbsent(before, k2, m, [2]);
    assert Newest(before, k2) == [1] && Newest(after, k2) == [2] by {
      NewestOfTwo(db, k2, m);
    }
    r := Loads(r, 2, pull);
    r := Writes(r, 1, late);
    r := Loads(r, 3, pull);
  }

  /** A Pull fills the cache with what it loaded before the late write, and the next Pull is answered from there. */
  lemma StaleHit(db: Hashes, k1: Key, k2: Key) returns (r: Run)
    requires Versions(db, k1) != map[] && MaxVersion(Versions(db, k1)) != 0 && Versions(db, k2) == map[]
    ensures StartsFrom(r, db) && |r.acts| == 14
    ensures r.acts[13] == Hit(k2, [1]) && Lookup(r.states[13].cache, k2) == [1] && Newest(r.states[13].db, k2) == [2]
  {
    hide Newest, Step;
    var late;
    r, late := RaceSetUp(db, k1, k2);
    var m, pull := MaxVersion(Versions(db, k1)), PullH([k2], 0, Look, []);
    var before := SetIfAbsent(db, k2, 0, [1]);
    assert Newest(before, k2) == [1] && Newest(SetIfAbsent(before, k2, m, [2]), k2) == [2] by {
      NewestOfTwo(db, k2, m);
    }
    r := Loads(r, 2, pull);
    r := Writes(r, 1, late);
    r := FillsCache(r, 2, pull.(pull := Fill([1])));
    r := Hits(r, 3, pull);
  }

  lemma NewestOfTwo(db: Hashes, k: Key, m: nat)
    requires Versions(db, k) == map[] && m > 0
    ensures Newest(SetIfAbsent(db, k, 0, [1]), k) == [1]
    ensures Newest(SetIfAbsent(SetIfAbsent(db, k, 0, [1]), k, m, [2]), k) == [2]
  {
    var one := Versions(SetIfAbsent(db, k, 0, [1]), k);
    var two := Versions(SetIfAbsent(SetIfAbsent(db, k, 0, [1]), k, m, [2]), k);
    assert one == map[0 := [1]] && two == map[0 := [1], m := [2]];
    assert IsMax(one, MaxVersion(one)) && IsMax(two, MaxVersion(two));
    assert 0 in one && m in two;
  }

  lemma NewestNotZero(db: Hashes) returns (k: Key)
    requires !AllZero(db)
    ensures Versions(db, k) != map[] && MaxVersion(Versions(db, k)) != 0
  {
    var other, v: nat :| v in Versions(db, other) && v != 0;
    k := other;
    assert IsMax(Versions(db, k), MaxVersion(Versions(db, k)));
  }

  /** Each read of a key is current in every run under the condition under which reads of it agree, and only then. */
  lemma ReadsAreCurrentExactly(db: Hashes, k: Key)
    ensures ReadsAlwaysCurrent(db, k) <==> Versions(db, k) != map[] || AllZero(db)
  {
    if Versions(db, k) != map[] || AllZero(db) {
      forall r: Run, i: nat, d: Bytes | StartsFrom(r, db) && i < |r.acts| && IsRead(r.acts[i], k, d)
        ensures d == Newest(r.states[i].db, k)
      {
        if AllZero(db) {
          ReadsAreCurrent(r, db, i, k, d);
        } else {
          SettledReads(r, db, i, k, d);
          StaysSettled(r, db, i, k);
          assert Newest(r.states[i].db, k) == Newest(db, k);
        }
      }
    } else {
      var other := NewestNotZero(db);
      var r := StaleHit(db, other, k);
      assert IsRead(r.acts[13], k, [1]);
    }
  }

  /** The cache is right about a key in every interleaving under exactly the same condition. */
  lemma CachedRightExactly(db: Hashes, k: Key)
    ensures AlwaysCachedRight(db, k) <==> Versions(db, k) != map[] || AllZero(db)
  {
    if Versions(db, k) != map[] || AllZero(db) {
      forall r: Run, i: nat | StartsFrom(r, db) && i < |r.states|
        ensures Agrees(r.states[i].db, k, Lookup(r.states[i].cache, k))
      {
        if AllZero(db) {
          AlwaysCoherent(r, db, i);
        } else {
          StaysSettled(r, db, i, k);
        }
      }
    } else {
      var other := NewestNotZero(db);
      var r := StaleHit(db, other, k);
      assert !Agrees(r.states[13].db, k, Lookup(r.states[13].cache, k));
    }
  }

  /**
   The reads of a key agree in every run if and only if the key has data from the start or version 0 is the
   only version in the store the server starts over.
   */
  lemma ReadsAgreeExactly(db: Hashes, k: Key)
    ensures ReadsAlwaysAgree(db, k) <==> Versions(db, k) != map[] || AllZero(db)
  {
    if Versions(db, k) != map[] || AllZero(db) {
      forall r: Run, i: nat, j: nat, d: Bytes, d': Bytes |
        StartsFrom(r, db) && i <= j < |r.acts| && IsRead(r.acts[i], k, d) && d != [] && IsRead(r.acts[j], k, d')
        ensures d' == d
      {
        if AllZero(db) {
          ReadsAgree(r, db, i, j, k, d, d');
        } else {
          SettledReads(r, db, i, k, d);
          SettledReads(r, db, j, k, d');
        }
      }
    } else {
      var other := NewestNotZero(db);
      var r := RacingReads(db, other, k);
      assert IsRead(r.acts[10], k, [1]) && IsRead(r.acts[13], k, [2]);
    }
  }

  /** The reads of all keys agree exactly when every version is 0 or no key is without data. */
  lemma AllReadsAgreeExactly(db: Hashes)
    ensures (forall k :: ReadsAlwaysAgree(db, k)) <==> AllZero(db) || forall k :: Versions(db, k) != map[]
  {
    forall k ensures ReadsAlwaysAgree(db, k) <==> Versions(db, k) != map[] || AllZero(db) {
      ReadsAgreeExactly(db, k);
    }
  }
}
