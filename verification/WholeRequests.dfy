/** A handler whose steps are not interleaved with others' does what the whole-request methods do. */
module WholeRequests {
  import opened Wire
  import opened Store
  import opened Cache
  import opened InOut
  import opened PushBatch
  import opened Interleaving
  import opened Service
  import opened EndToEnd

  /** Only one handler takes steps. */
  ghost predicate Alone(r: Run, id: nat) {
    IsRun(r) && forall i | 0 <= i < |r.ids| :: r.ids[i] == id
  }

  ghost predicate Starts(r: Run, id: nat, h: Handler) {
    Alone(r, id) && id in r.states[0].handlers && r.states[0].handlers[id] == h
  }

  /** The state of the lone handler when the run ends. */
  ghost function Last(r: Run): State
    requires IsRun(r)
  {
    r.states[|r.acts|]
  }

  /** One more step of the lone handler. */
  lemma OneMoreStep(r: Run, id: nat, act: Act, s': State) returns (r': Run)
    requires Alone(r, id) && Step(Last(r), id, act, s')
    ensures Alone(r', id) && Last(r') == s' && r'.states[0] == r.states[0]
  {
    hide Step;
    r' := Extend(r, id, act, s');
  }

  // ---------------------------------------------------------------- Pull

  ghost predicate Pulling(db: Hashes, cache: Entries, keys: seq<Key>, s: State, id: nat) {
    && s.db == db && Coherent(s.cache, db)
    && FilledFor(cache, db, Requested(keys), s.cache)
    && id in s.handlers && s.handlers[id].PullH?
    && var h := s.handlers[id];
    && h.keys == keys && h.i <= |keys| && h.out == Answers(db, keys[..h.i])
    && (h.pull.Fill? ==> h.i < |keys| && h.pull.d == Newest(db, keys[h.i]))
  }

  lemma PullingStep(db: Hashes, cache: Entries, keys: seq<Key>, s: State, id: nat, act: Act, s': State)
    requires Pulling(db, cache, keys, s, id) && Step(s, id, act, s')
    ensures Pulling(db, cache, keys, s', id)
  {
    hide Newest, FilledFor;
    var h, h' := s.handlers[id], s'.handlers[id];
    if h'.i == h.i + 1 {
      assert h'.out == h.out + [Newest(db, keys[h.i])];
      AnswersOneMore(db, keys, h.i);
    }
    FillsAsked(db, cache, keys, s, id, act, s');
  }

  lemma FillsAsked(db: Hashes, cache: Entries, keys: seq<Key>, s: State, id: nat, act: Act, s': State)
    requires Pulling(db, cache, keys, s, id) && Step(s, id, act, s')
    ensures FilledFor(cache, db, Requested(keys), s'.cache)
  {
    hide Newest, Answers, Coherent, KeySet;
    var h := s.handlers[id];
    if h.i < |keys| {
      KeySetHas(Requested(keys), h.i);
    }
  }

  lemma KeySetHas(infos: seq<DataInfo>, i: nat)
    requires i < |infos|
    ensures infos[i].id in KeySet(infos)
  {
    assert infos[i] in infos;
  }

  lemma AnswersOneMore(db: Hashes, keys: seq<Key>, i: nat)
    requires i < |keys|
    ensures Answers(db, keys[..i + 1]) == Answers(db, keys[..i]) + [Newest(db, keys[i])]
  {
  }

  /**
   A Pull on its own, over a coherent cache, ends with the newest data of every key, the same store, and a
   cache in which only keys it was asked for are new, as the whole-request method does.
   */
  lemma {:induction false} PullAlone(r: Run, id: nat, keys: seq<Key>, i: nat)
    requires Starts(r, id, PullH(keys, 0, Look, [])) && Coherent(r.states[0].cache, r.states[0].db)
    requires i < |r.states|
    ensures Pulling(r.states[0].db, r.states[0].cache, keys, r.states[i], id)
    ensures var s, s' := r.states[0], r.states[i];
      s'.handlers[id].i == |keys| ==>
        && s'.handlers[id].out == Answers(s.db, keys) && s'.db == s.db
        && Coherent(s'.cache, s.db) && FilledFor(s.cache, s.db, Requested(keys), s'.cache)
  {
    hide Step;
    if i == 0 {
      assert Answers(r.states[0].db, keys[..0]) == [];
    } else {
      PullAlone(r, id, keys, i - 1);
      PullingStep(r.states[0].db, r.states[0].cache, keys, r.states[i - 1], id, r.acts[i - 1], r.states[i]);
    }
    assert keys[..|keys|] == keys;
  }

  /** From wherever it is between two keys, a Pull can go on to its end on its own. */
  lemma {:induction false} PullGoesOn(r: Run, id: nat, keys: seq<Key>) returns (r': Run)
    requires Alone(r, id) && id in Last(r).handlers
    requires var h := Last(r).handlers[id]; h.PullH? && h.keys == keys && h.i <= |keys| && h.pull == Look
    ensures Alone(r', id) && r'.states[0] == r.states[0] && id in Last(r').handlers
    ensures var h := Last(r').handlers[id]; h.PullH? && h.keys == keys && h.i == |keys|
    decreases |keys| - Last(r).handlers[id].i
  {
    hide Newest, IsRun;
    var s := Last(r);
    var h := s.handlers[id];
    if h.i == |keys| {
      r' := r;
    } else {
      var k := keys[h.i];
      var d := Lookup(s.cache, k);
      if d != [] {
        r' := OneMoreStep(r, id, Hit(k, d), s.Move(id, PullH(keys, h.i + 1, Look, h.out + [d])));
      } else {
        d := Newest(s.db, k);
        r' := OneMoreStep(r, id, Miss(k), s.Move(id, h.(pull := Load)));
        r' := OneMoreStep(r', id, LoadStore(k, d), Last(r').Move(id, h.(pull := Fill(d))));
        r' := OneMoreStep(r', id, FillCache(k, d),
                          Last(r').Move(id, PullH(keys, h.i + 1, Look, h.out + [d])).(cache := map[k := d]));
      }
      r' := PullGoesOn(r', id, keys);
    }
  }

  /** Any waiting Pull has a run of its own to the end, and it ends as the whole-request method does. */
  lemma PullFinishes(s: State, id: nat, keys: seq<Key>) returns (r: Run)
    requires id in s.handlers && s.handlers[id] == PullH(keys, 0, Look, []) && Coherent(s.cache, s.db)
    ensures Starts(r, id, s.handlers[id]) && r.states[0] == s && id in Last(r).handlers
    ensures var h := Last(r).handlers[id]; h.PullH? && h.i == |keys| && h.out == Answers(s.db, keys)
    ensures Last(r).db == s.db && Coherent(Last(r).cache, s.db)
    ensures FilledFor(s.cache, s.db, Requested(keys), Last(r).cache)
  {
    hide Step, FilledFor, Coherent;
    r := PullGoesOn(Run([s], [], []), id, keys);
    PullAlone(r, id, keys, |r.acts|);
  }

  // ---------------------------------------------------------------- Push

  /** What is left of the batch, done at once, would give the batch's store; then the pushed keys leave the cache. */
  ghost predicate Pushing(after: Hashes, cache: Entries, infos: seq<DataInfo>, s: State, id: nat) {
    && id in s.handlers
    && match s.handlers[id]
       case PullH(_, _, _, _) => false
       case PushH(infos', i, Fetch, currv) =>
         infos' == infos && i <= |infos| && s.cache == cache && PushAll(s.db, currv, infos[i..]) == after
       case PushH(infos', i, Write(d), currv) =>
         && infos' == infos && i < |infos| && s.cache == cache
         && PushAll(SetIfAbsent(s.db, infos[i].id, currv, d), currv, infos[i + 1..]) == after
       case DelH(keys, i) =>
         keys == Ids(infos) && i <= |keys| && s.db == after && s.cache == cache - KeySet(infos[..i])
  }

  lemma PushingStep(after: Hashes, cache: Entries, infos: seq<DataInfo>, s: State, id: nat, act: Act, s': State)
    requires Pushing(after, cache, infos, s, id) && Step(s, id, act, s')
    ensures Pushing(after, cache, infos, s', id)
  {
    hide Newest, VersionRead, SetIfAbsent, KeySet;
    var h := s.handlers[id];
    if h.PushH? && h.push.Fetch? && h.i < |infos| {
      assert infos[h.i..][0] == infos[h.i] && infos[h.i..][1..] == infos[h.i + 1..];
    }
    if act.FallThrough? {
      KeySetNone();
      assert infos[..0] == [] && cache - {} == cache;
    }
    if act.Invalidate? {
      KeySetOneMore(infos, h.i);
      assert cache - KeySet(infos[..h.i]) - {infos[h.i].id} == cache - (KeySet(infos[..h.i]) + {infos[h.i].id});
    }
  }

  /**
   A Push on its own makes of the store what the batch does and takes exactly the pushed keys out of the
   cache, as the whole-request method does.
   */
  lemma {:induction false} PushAlone(r: Run, id: nat, infos: seq<DataInfo>, i: nat)
    requires Starts(r, id, PushH(infos, 0, Fetch, 0)) && i < |r.states|
    ensures Pushing(PushAll(r.states[0].db, 0, infos), r.states[0].cache, infos, r.states[i], id)
    ensures var h := r.states[i].handlers[id];
      h.DelH? && h.i == |infos| ==>
        && r.states[i].db == PushAll(r.states[0].db, 0, infos)
        && r.states[i].cache == r.states[0].cache - KeySet(infos)
  {
    hide Step, PushAll, KeySet;
    assert infos[..|infos|] == infos;
    if i == 0 {
      assert infos[0..] == infos;
    } else {
      PushAlone(r, id, infos, i - 1);
      PushingStep(PushAll(r.states[0].db, 0, infos), r.states[0].cache, infos,
                  r.states[i - 1], id, r.acts[i - 1], r.states[i]);
    }
  }

  /** From wherever it is between two entries, a Push can go on to the end of its batch on its own. */
  lemma {:induction false} PushGoesOn(r: Run, id: nat, infos: seq<DataInfo>) returns (r': Run)
    requires Alone(r, id) && id in Last(r).handlers
    requires var h := Last(r).handlers[id]; h.PushH? && h.infos == infos && h.i <= |infos| && h.push == Fetch
    ensures Alone(r', id) && r'.states[0] == r.states[0] && id in Last(r').handlers
    ensures Last(r').handlers[id] == DelH(Ids(infos), 0)
    decreases |infos| - Last(r).handlers[id].i
  {
    hide Newest, VersionRead, SetIfAbsent, IsRun;
    var s := Last(r);
    var h := s.handlers[id];
    if h.i == |infos| {
      r' := OneMoreStep(r, id, FallThrough, s.Move(id, DelH(Ids(infos), 0)));
    } else {
      var k, currv := infos[h.i].id, VersionRead(s.db, infos[h.i].id, h.currv);
      var d := Newest(s.db, k) + infos[h.i].d;
      r' := OneMoreStep(r, id, FetchNewest(k), s.Move(id, h.(push := Write(d), currv := currv)));
      r' := OneMoreStep(r', id, WriteStore(k, currv, d, currv !in Versions(s.db, k)),
                        Last(r').Move(id, PushH(infos, h.i + 1, Fetch, currv)).(db := SetIfAbsent(s.db, k, currv, d)));
      r' := PushGoesOn(r', id, infos);
    }
  }

  lemma {:induction false} InvalidationGoesOn(r: Run, id: nat, keys: seq<Key>) returns (r': Run)
    requires Alone(r, id) && id in Last(r).handlers
    requires var h := Last(r).handlers[id]; h.DelH? && h.keys == keys && h.i <= |keys|
    ensures Alone(r', id) && r'.states[0] == r.states[0] && id in Last(r').handlers
    ensures Last(r').handlers[id] == DelH(keys, |keys|)
    decreases |keys| - Last(r).handlers[id].i
  {
    hide IsRun;
    var s := Last(r);
    var h := s.handlers[id];
    if h.i == |keys| {
      r' := r;
    } else {
      r' := OneMoreStep(r, id, Invalidate(keys[h.i]), s.Move(id, DelH(keys, h.i + 1)).(cache := s.cache - {keys[h.i]}));
      r' := InvalidationGoesOn(r', id, keys);
    }
  }

  /** Any waiting Push has a run of its own to the end, and it ends as the whole-request method does. */
  lemma PushFinishes(s: State, id: nat, infos: seq<DataInfo>) returns (r: Run)
    requires id in s.handlers && s.handlers[id] == PushH(infos, 0, Fetch, 0)
    ensures Starts(r, id, s.handlers[id]) && r.states[0] == s && id in Last(r).handlers
    ensures Last(r).handlers[id] == DelH(Ids(infos), |infos|)
    ensures Last(r).db == PushAll(s.db, 0, infos) && Last(r).cache == s.cache - KeySet(infos)
  {
    hide Step, PushAll, KeySet;
    r := PushGoesOn(Run([s], [], []), id, infos);
    r := InvalidationGoesOn(r, id, Ids(infos));
    PushAlone(r, id, infos, |r.acts|);
  }
}
