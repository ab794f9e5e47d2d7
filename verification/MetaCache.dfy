/** The metadata ids of a `SpanSender`: assigned on first use, registered with the backend until the
    backend confirms, dropped as a whole when the span stream breaks. One consumer uses a sender; the
    id counter is shared by all senders of the process. */
module MetaCache {
  import opened Bytes

  const META_DEFAULT_API: int := 0
  const META_WEB_REQUEST_API: int := 1
  const META_STRING_API: int := 2
  const META_SQL_UID_API: int := 3
  const META_INVOCATION_API: int := 4

  datatype Key = Key(kind: int, name: string)

  datatype Id = IntId(value: int) | Uid(hash: Bytes)

  /** What became of one registration. */
  datatype Outcome = NoConnection | Failed | Confirmed

  datatype Registration = Registration(key: Key, id: Id, confirmed: bool)

  /** `unique_id_count`, an `int32` that starts at 1; `issued` counts the increments. */
  class Counter {
    var value: int
    ghost var issued: nat

    ghost predicate Valid()
      reads this
    {
      value == Nth(issued)
    }

    constructor ()
      ensures Valid() && issued == 0
    {
      value, issued := 1, 0;
    }

    /** `atomic.AddInt32(&unique_id_count, 1)`. */
    method Next() returns (r: int)
      requires Valid()
      modifies this
      ensures Valid() && issued == old(issued) + 1 && r == Nth(issued)
    {
      hide Nth;
      NthNext(issued);
      value := AsInt32(Wrap32(value + 1));
      issued := issued + 1;
      r := value;
    }
  }

  /** From `start` on a key was always registered with the id it has, and never again after the
      backend confirmed it. */
  ghost predicate Recorded(log: seq<Registration>, start: nat, ids: map<Key, Id>, pending: set<Key>) {
    && start <= |log|
    && (forall i | start <= i < |log| ::
          && log[i].key in ids && log[i].id == ids[log[i].key]
          && (log[i].confirmed ==> log[i].key !in pending))
    && (forall i, j | start <= i < j < |log| :: log[i].confirmed ==> log[j].key != log[i].key)
  }

  lemma RecordedNewKey(log: seq<Registration>, start: nat, ids: map<Key, Id>, pending: set<Key>, key: Key, id: Id)
    requires Recorded(log, start, ids, pending) && key !in ids
    ensures Recorded(log, start, ids[key := id], pending + {key})
  {
  }

  class SpanSender {
    const counter: Counter
    const hash: string -> Bytes
    var idMap: map<Key, Id>
    var pending: set<Key>
    /** Registrations sent to the backend. */
    var log: seq<Registration>
    /** When each integer id was issued, and how many ids the process had issued at the last clean. */
    ghost var issuedAt: map<Key, nat>
    ghost var cleanedAt: nat
    /** Registrations sent before the last clean. */
    ghost var logCleanedAt: nat

    ghost predicate Valid()
      reads this, counter
    {
      Assigned() && Recorded(log, logCleanedAt, idMap, pending)
    }

    /** Every key in use has the id that was issued for it, or the hash of its statement. */
    ghost predicate Assigned()
      reads this, counter
    {
      && counter.Valid() && pending <= idMap.Keys && cleanedAt <= counter.issued
      && (forall k <- idMap :: if k.kind == META_SQL_UID_API then idMap[k] == Uid(hash(k.name))
                               else k in issuedAt && idMap[k] == IntId(Nth(issuedAt[k])))
      && (forall k <- issuedAt :: cleanedAt < issuedAt[k] <= counter.issued)
      && (forall k <- issuedAt, l <- issuedAt | issuedAt[k] == issuedAt[l] :: k == l)
    }

    constructor (counter: Counter, hash: string -> Bytes)
      requires counter.Valid()
      ensures Valid() && idMap == map[] && pending == {} && log == [] && this.counter == counter && this.hash == hash
    {
      this.counter, this.hash := counter, hash;
      idMap, pending, log := map[], {}, [];
      issuedAt, cleanedAt, logCleanedAt := map[], counter.issued, 0;
    }

    /** `SenderGrpcMetaData`. For a key that is pending, which is how it is called, it keeps the record
        straight; a confirmed key it would register again. */
    method SenderGrpcMetaData(key: Key, outcome: Outcome)
      requires Valid() && key in idMap
      modifies this`pending, this`log
      ensures Assigned() && (key in old(pending) ==> Valid())
      ensures log == if outcome != NoConnection && 0 <= key.kind <= 4
                     then old(log) + [Registration(key, idMap[key], outcome == Confirmed)] else old(log)
      ensures pending == if outcome == Confirmed && 0 <= key.kind <= 4 then old(pending) - {key} else old(pending)
    {
      if outcome == NoConnection {
        return;
      }
      if key.kind == META_DEFAULT_API || key.kind == META_WEB_REQUEST_API || key.kind == META_STRING_API
         || key.kind == META_SQL_UID_API || key.kind == META_INVOCATION_API
      {
        log := log + [Registration(key, idMap[key], outcome == Confirmed)];
        if outcome == Confirmed {
          pending := pending - {key};
        }
      }
    }

    /** `getMetaApiId`. */
    method GetMetaApiId(name: string, kind: int, outcome: Outcome) returns (id: int)
      requires Valid() && kind != META_SQL_UID_API
      modifies this, counter
      ensures Valid() && cleanedAt == old(cleanedAt) && logCleanedAt == old(logCleanedAt)
      ensures Used(old(idMap), old(pending), old(log), idMap, pending, log, Key(kind, name), IntId(id), outcome)
      ensures var key := Key(kind, name);
              if 0 <= kind <= 4 && outcome != NoConnection && !(key in old(idMap) && key !in old(pending))
              then log == old(log) + [Registration(key, IntId(id), outcome == Confirmed)] else log == old(log)
      ensures outcome == Confirmed && 0 <= kind <= 4 ==> Key(kind, name) in idMap && Key(kind, name) !in pending
      ensures counter.issued == old(counter.issued) + if Key(kind, name) in old(idMap) then 0 else 1
      ensures Key(kind, name) !in old(idMap) ==> id == Nth(counter.issued)
    {
      hide Nth;
      var key := Key(kind, name);
      if key in idMap {
        id := idMap[key].value;
        if key in pending {
          SenderGrpcMetaData(key, outcome);
        }
        return;
      }
      id := AssignId(key);
      SenderGrpcMetaData(key, outcome);
    }

    /** A new key takes the next id of the process and is pending. */
    method AssignId(key: Key) returns (id: int)
      requires Valid() && key !in idMap && key.kind != META_SQL_UID_API
      modifies this`idMap, this`pending, this`issuedAt, counter
      ensures Valid() && idMap == old(idMap)[key := IntId(id)] && pending == old(pending) + {key}
      ensures counter.issued == old(counter.issued) + 1 && id == Nth(counter.issued)
    {
      hide Nth, Recorded;
      id := counter.Next();
      RecordedNewKey(log, logCleanedAt, idMap, pending, key, IntId(id));
      issuedAt := issuedAt[key := counter.issued];
      idMap, pending := idMap[key := IntId(id)], pending + {key};
    }

    /** `getSqlUidMetaApiId`. */
    method GetSqlUidMetaApiId(name: string, outcome: Outcome) returns (uid: Bytes)
      requires Valid()
      modifies this
      ensures Valid() && cleanedAt == old(cleanedAt) && logCleanedAt == old(logCleanedAt) && uid == hash(name)
      ensures Used(old(idMap), old(pending), old(log), idMap, pending, log, Key(META_SQL_UID_API, name), Uid(uid), outcome)
    {
      var key := Key(META_SQL_UID_API, name);
      if key in idMap {
        uid := idMap[key].hash;
        if key in pending {
          SenderGrpcMetaData(key, outcome);
        }
        return;
      }
      uid := hash(name);
      idMap, pending := idMap[key := Uid(uid)], pending + {key};
      SenderGrpcMetaData(key, outcome);
    }

    /** `cleanAllMetaData`. */
    method CleanAllMetaData()
      requires Valid()
      modifies this
      ensures Valid() && idMap == map[] && pending == {} && log == old(log)
      ensures cleanedAt == counter.issued && logCleanedAt == |log|
    {
      idMap, pending := map[], {};
      issuedAt, cleanedAt, logCleanedAt := map[], counter.issued, |log|;
    }

    /** Two keys share an integer id exactly when the counter went round between them; in particular
        not before 2^32 ids have been issued since the last clean. */
    lemma IdsDistinct(k: Key, l: Key)
      requires Valid() && k in idMap && l in idMap && k != l
      requires k.kind != META_SQL_UID_API && l.kind != META_SQL_UID_API
      ensures idMap[k] == idMap[l] <==> (issuedAt[k] - issuedAt[l]) % TWO_32 == 0
      ensures counter.issued - cleanedAt <= TWO_32 ==> idMap[k] != idMap[l]
    {
      hide Nth, Recorded;
      NthRepeats(issuedAt[k], issuedAt[l]);
    }
  }

  /** One use of a key: it keeps the id it has; while it is not confirmed, every use that reaches the
      backend registers that same id; once confirmed, none does. A kind other than 0 to 4 is never
      registered and stays pending. */
  ghost predicate Used(ids: map<Key, Id>, pending: set<Key>, log: seq<Registration>,
                       ids': map<Key, Id>, pending': set<Key>, log': seq<Registration>,
                       key: Key, id: Id, outcome: Outcome)
  {
    var confirmed := key in ids && key !in pending;
    && ids' == ids[key := id] && (key in ids ==> ids[key] == id)
    && log' == (if !confirmed && outcome != NoConnection && 0 <= key.kind <= 4
                then log + [Registration(key, id, outcome == Confirmed)] else log)
    && pending' == (if confirmed || (outcome == Confirmed && 0 <= key.kind <= 4) then pending - {key}
                    else pending + {key})
  }

  /** What happens to a sender: uses of names and statements, cleans, and ids drawn by other senders. */
  datatype Use = Api(name: string, kind: int, outcome: Outcome) | Sql(name: string, outcome: Outcome) | Clean | Elsewhere

  predicate IsUse(u: Use) {
    u.Api? || u.Sql?
  }

  function KeyOf(u: Use): (k: Key)
    requires IsUse(u)
  {
    if u.Api? then Key(u.kind, u.name) else Key(META_SQL_UID_API, u.name)
  }

  /** Two uses with no clean between them: the same key has the same id, and different names have
      different ids as long as the run is not long enough to take the counter round. */
  ghost predicate Agree(uses: seq<Use>, ids: seq<Id>, i: nat, j: nat)
    requires i < j < |uses| && j < |ids| && IsUse(uses[i]) && IsUse(uses[j])
  {
    && (KeyOf(uses[i]) == KeyOf(uses[j]) ==> ids[i] == ids[j])
    && (KeyOf(uses[i]) != KeyOf(uses[j]) && uses[i].Api? && uses[j].Api? && |uses| <= TWO_32 ==> ids[i] != ids[j])
  }

  ghost predicate Together(uses: seq<Use>, i: nat, j: nat)
    requires i < j < |uses|
  {
    IsUse(uses[i]) && IsUse(uses[j]) && forall k | i < k < j :: uses[k] != Clean
  }

  ghost predicate AgreeAll(uses: seq<Use>, ids: seq<Id>)
    requires |ids| <= |uses|
  {
    forall i, j | 0 <= i < j < |ids| && Together(uses, i, j) :: Agree(uses, ids, i, j)
  }

  /** The uses from `from` on came after the last clean, and their ids are those of `known`. */
  ghost predicate Kept(uses: seq<Use>, ids: seq<Id>, from: nat, known: map<Key, Id>)
    requires from <= |ids| <= |uses|
  {
    && (from > 0 ==> uses[from - 1] == Clean)
    && forall k | from <= k < |ids| && IsUse(uses[k]) :: KeyOf(uses[k]) in known && known[KeyOf(uses[k])] == ids[k]
  }

  /** No two names share an id. */
  ghost predicate AllDistinct(known: map<Key, Id>) {
    forall k <- known, l <- known | k != l && k.kind != META_SQL_UID_API && l.kind != META_SQL_UID_API ::
      known[k] != known[l]
  }

  lemma AgreeOneMore(uses: seq<Use>, ids: seq<Id>, id: Id, from: nat, known: map<Key, Id>)
    requires |ids| < |uses| && from <= |ids| + 1 && (forall u <- uses :: u.Api? ==> u.kind != META_SQL_UID_API)
    requires AgreeAll(uses, ids) && Kept(uses, ids + [id], from, known) && (|uses| <= TWO_32 ==> AllDistinct(known))
    ensures AgreeAll(uses, ids + [id])
  {
    var more, n := ids + [id], |ids|;
    forall i, j | 0 <= i < j < |more| && Together(uses, i, j) ensures Agree(uses, more, i, j) {
      if j < n {
        assert Agree(uses, ids, i, j);
      } else {
        assert uses[i] in uses && uses[n] in uses;
        assert i >= from;
        assert known[KeyOf(uses[i])] == more[i] && known[KeyOf(uses[n])] == more[n];
      }
    }
  }

  function OutcomeOf(u: Use): (r: Outcome)
    requires IsUse(u)
  {
    u.outcome
  }

  /** Where the uses after the last clean start. */
  function SinceClean(uses: seq<Use>, n: nat): (from: nat)
    requires n <= |uses|
    ensures from <= n && (forall k | from <= k < n :: uses[k] != Clean) && (from > 0 ==> uses[from - 1] == Clean)
  {
    if n == 0 || uses[n - 1] == Clean then n else SinceClean(uses, n - 1)
  }

  /** The backend has confirmed the key, since the last clean and before the `n`-th use. */
  ghost predicate Settled(uses: seq<Use>, n: nat, key: Key)
    requires n <= |uses|
  {
    0 <= key.kind <= 4 && exists k | SinceClean(uses, n) <= k < n :: Confirms(uses[k], key)
  }

  predicate Confirms(u: Use, key: Key) {
    IsUse(u) && KeyOf(u) == key && OutcomeOf(u) == Confirmed
  }

  /** What the backend sees of the first `n` uses: every use of a name it has not confirmed, with its id. */
  ghost function Registrations(uses: seq<Use>, ids: seq<Id>, n: nat): (log: seq<Registration>)
    requires n <= |uses| && n <= |ids|
  {
    if n == 0 then []
    else
      var u, log := uses[n - 1], Registrations(uses, ids, n - 1);
      if IsUse(u) && OutcomeOf(u) != NoConnection && 0 <= KeyOf(u).kind <= 4 && !Settled(uses, n - 1, KeyOf(u))
      then log + [Registration(KeyOf(u), ids[n - 1], OutcomeOf(u) == Confirmed)] else log
  }

  lemma {:induction false} RegistrationsSame(uses: seq<Use>, ids: seq<Id>, id: Id, n: nat)
    requires n <= |uses| && n <= |ids|
    ensures Registrations(uses, ids + [id], n) == Registrations(uses, ids, n)
  {
    if n == 0 {
    } else {
      RegistrationsSame(uses, ids, id, n - 1);
    }
  }

  /** The keys that are known and not pending are those the backend has confirmed. */
  ghost predicate Tracks(uses: seq<Use>, n: nat, known: map<Key, Id>, pending: set<Key>)
    requires n <= |uses|
  {
    forall key :: key in known && key !in pending <==> Settled(uses, n, key)
  }

  lemma SettledNext(uses: seq<Use>, n: nat, key: Key)
    requires n < |uses|
    ensures Settled(uses, n + 1, key) <==>
              uses[n] != Clean && ((0 <= key.kind <= 4 && Confirms(uses[n], key)) || Settled(uses, n, key))
  {
    if uses[n] != Clean {
      assert SinceClean(uses, n + 1) == SinceClean(uses, n);
      if Settled(uses, n, key) {
        var k :| SinceClean(uses, n) <= k < n && Confirms(uses[k], key);
      }
    }
  }

  lemma TracksNone(uses: seq<Use>)
    ensures Tracks(uses, 0, map[], {})
  {
  }

  lemma TracksNext(uses: seq<Use>, n: nat, known: map<Key, Id>, pending: set<Key>, known': map<Key, Id>,
                   pending': set<Key>, log: seq<Registration>, log': seq<Registration>, id: Id)
    requires n < |uses| && Tracks(uses, n, known, pending)
    requires Happened(uses[n], known, pending, log, known', pending', log', id)
    ensures Tracks(uses, n + 1, known', pending')
  {
    hide Settled;
    forall key ensures key in known' && key !in pending' <==> Settled(uses, n + 1, key) {
      SettledNext(uses, n, key);
    }
  }

  /** One thing that happens to a sender. */
  ghost predicate Happened(u: Use, ids: map<Key, Id>, pending: set<Key>, log: seq<Registration>,
                           ids': map<Key, Id>, pending': set<Key>, log': seq<Registration>, id: Id)
  {
    if IsUse(u) then Used(ids, pending, log, ids', pending', log', KeyOf(u), id, OutcomeOf(u))
    else if u == Clean then ids' == map[] && pending' == {} && log' == log
    else ids' == ids && pending' == pending && log' == log
  }

  method RunUse(s: SpanSender, u: Use) returns (id: Id)
    requires s.Valid() && (u.Api? ==> u.kind != META_SQL_UID_API)
    modifies s, s.counter
    ensures s.Valid()
    ensures Happened(u, old(s.idMap), old(s.pending), old(s.log), s.idMap, s.pending, s.log, id)
    ensures u.Sql? ==> id == Uid(s.hash(u.name))
    ensures s.counter.issued - s.cleanedAt <= if u == Clean then 0 else old(s.counter.issued - s.cleanedAt) + 1
  {
    hide Nth, Recorded;
    id := IntId(0);
    match u
    case Api(name, kind, outcome) =>
      var v := s.GetMetaApiId(name, kind, outcome);
      id := IntId(v);
    case Sql(name, outcome) =>
      var v := s.GetSqlUidMetaApiId(name, outcome);
      id := Uid(v);
    case Clean =>
      s.CleanAllMetaData();
    case Elsewhere =>
      var _ := s.counter.Next();
  }

  /** Any run of a sender from a new counter: which ids agree, and what the backend sees. */
  method RunUses(uses: seq<Use>, hash: string -> Bytes) returns (s: SpanSender, ids: seq<Id>)
    requires forall u <- uses :: u.Api? ==> u.kind != META_SQL_UID_API
    ensures fresh(s) && s.Valid() && |ids| == |uses| && AgreeAll(uses, ids)
    ensures s.log == Registrations(uses, ids, |uses|)
    ensures forall r <- s.log :: 0 <= r.key.kind <= 4
    ensures forall i | 0 <= i < |uses| && Unconfirmed(uses, i) ::
              Registration(KeyOf(uses[i]), ids[i], OutcomeOf(uses[i]) == Confirmed) in s.log
    ensures forall i | 0 <= i < |uses| :: uses[i].Sql? ==> ids[i] == Uid(hash(uses[i].name))
  {
    hide Nth, Recorded, AgreeAll, Settled, Tracks, Kept, Happened, SpanSender.Assigned;
    var counter := new Counter();
    s := new SpanSender(counter, hash);
    ids := [];
    NothingAgrees(uses);
    TracksNone(uses);
    for n := 0 to |uses|
      invariant fresh(s) && s.counter == counter && fresh(counter) && s.hash == hash && s.Valid()
      invariant |ids| == n && Kept(uses, ids, SinceClean(uses, n), s.idMap) && AgreeAll(uses, ids)
      invariant counter.issued - s.cleanedAt <= n - SinceClean(uses, n)
      invariant Tracks(uses, n, s.idMap, s.pending) && s.log == Registrations(uses, ids, n)
      invariant forall i | 0 <= i < n :: uses[i].Sql? ==> ids[i] == Uid(hash(uses[i].name))
    {
      ghost var known, pending, log := s.idMap, s.pending, s.log;
      var id := RunUse(s, uses[n]);
      DistinctNow(s, |uses|);
      KeptNext(uses, ids, known, pending, log, s.idMap, s.pending, s.log, id);
      AgreeOneMore(uses, ids, id, SinceClean(uses, n + 1), s.idMap);
      TracksNext(uses, n, known, pending, s.idMap, s.pending, log, s.log, id);
      LogNext(uses, ids, n, known, pending, log, s.idMap, s.pending, s.log, id);
      ids := ids + [id];
    }
    RegistrationsHold(uses, ids);
  }

  /** The `i`-th use reaches the backend with a key of the kinds 0 to 4 that no use since the last clean
      has had confirmed. */
  ghost predicate Unconfirmed(uses: seq<Use>, i: nat)
    requires i < |uses|
    ensures Unconfirmed(uses, i) ==> IsUse(uses[i])
  {
    && IsUse(uses[i]) && OutcomeOf(uses[i]) != NoConnection && 0 <= KeyOf(uses[i]).kind <= 4
    && forall k | SinceClean(uses, i) <= k < i :: !Confirms(uses[k], KeyOf(uses[i]))
  }

  lemma {:induction false} KindsKnown(uses: seq<Use>, ids: seq<Id>, n: nat)
    requires n <= |uses| && n <= |ids|
    ensures forall r <- Registrations(uses, ids, n) :: 0 <= r.key.kind <= 4
  {
    hide Settled;
    if n == 0 {
    } else {
      KindsKnown(uses, ids, n - 1);
    }
  }

  lemma {:induction false} IsRegistered(uses: seq<Use>, ids: seq<Id>, n: nat, i: nat)
    requires i < n <= |uses| && n <= |ids| && Unconfirmed(uses, i)
    ensures Registration(KeyOf(uses[i]), ids[i], OutcomeOf(uses[i]) == Confirmed) in Registrations(uses, ids, n)
    decreases n
  {
    if i < n - 1 {
      hide Settled, Unconfirmed;
      IsRegistered(uses, ids, n - 1, i);
    } else {
      assert !Settled(uses, i, KeyOf(uses[i]));
      hide Settled;
    }
  }

  lemma {:induction false} RegistrationsHold(uses: seq<Use>, ids: seq<Id>)
    requires |uses| <= |ids|
    ensures forall r <- Registrations(uses, ids, |uses|) :: 0 <= r.key.kind <= 4
    ensures forall i | 0 <= i < |uses| && Unconfirmed(uses, i) ::
              Registration(KeyOf(uses[i]), ids[i], OutcomeOf(uses[i]) == Confirmed) in Registrations(uses, ids, |uses|)
  {
    hide Registrations, Unconfirmed;
    KindsKnown(uses, ids, |uses|);
    forall i | 0 <= i < |uses| && Unconfirmed(uses, i)
      ensures Registration(KeyOf(uses[i]), ids[i], OutcomeOf(uses[i]) == Confirmed) in Registrations(uses, ids, |uses|)
    {
      IsRegistered(uses, ids, |uses|, i);
    }
  }

  lemma {:induction false} LogNext(uses: seq<Use>, ids: seq<Id>, n: nat, known: map<Key, Id>, pending: set<Key>,
                                   log: seq<Registration>,
                known': map<Key, Id>, pending': set<Key>, log': seq<Registration>, id: Id)
    requires n < |uses| && |ids| == n && Tracks(uses, n, known, pending) && log == Registrations(uses, ids, n)
    requires Happened(uses[n], known, pending, log, known', pending', log', id)
    ensures log' == Registrations(uses, ids + [id], n + 1)
  {
    hide Settled;
    RegistrationsSame(uses, ids, id, n);
  }

  lemma DistinctNow(s: SpanSender, n: nat)
    requires s.Valid() && s.counter.issued - s.cleanedAt <= n
    ensures n <= TWO_32 ==> AllDistinct(s.idMap)
  {
    hide Nth, Recorded;
    if n <= TWO_32 {
      forall k <- s.idMap, l <- s.idMap | k != l && k.kind != META_SQL_UID_API && l.kind != META_SQL_UID_API
        ensures s.idMap[k] != s.idMap[l]
      {
        s.IdsDistinct(k, l);
      }
    }
  }

  lemma {:induction false} KeptNext(uses: seq<Use>, ids: seq<Id>, known: map<Key, Id>, pending: set<Key>,
                                    log: seq<Registration>,
                 known': map<Key, Id>, pending': set<Key>, log': seq<Registration>, id: Id)
    requires |ids| < |uses| && Kept(uses, ids, SinceClean(uses, |ids|), known)
    requires Happened(uses[|ids|], known, pending, log, known', pending', log', id)
    ensures Kept(uses, ids + [id], SinceClean(uses, |ids| + 1), known')
  {
  }

  lemma NothingAgrees(uses: seq<Use>)
    ensures AgreeAll(uses, []) && Kept(uses, [], 0, map[])
  {
  }
}
