/**
 * What one reconcile promises, proved about its specification Reconciled: the
 * schedule, the immutability guard, which key is pruned, the order of the calls
 * and where a failure stops them, what is published, and how the status is stamped.
 */
module ReconcileProperties {
  import opened Api
  import opened AccessKeys
  import opened Controller

  /** The rotation is due at time now. */
  predicate IsDue(w: World, now: int) {
    DueCheck(w.recycler.status, w.recycler.spec.recycle, now).Due?
  }

  /** The target Secret was fetched and is not immutable. */
  predicate Writable(w: World, r: Responses) {
    && r.getSecret.None?
    && w.recycler.spec.secret in w.secrets
    && w.secrets[w.recycler.spec.secret].immutable != Some(true)
  }

  /** The Secret is writable and ListAccessKeys succeeded. */
  predicate Listed(w: World, r: Responses) {
    Writable(w, r) && r.listKeys.None?
  }

  /** The id of the key that the reconcile deletes when the user holds exactly two. */
  function OldestId(keys: seq<KeyMetadata>): (id: string)
    requires |keys| > 0
  {
    SortByCreate(keys)[0].accessKeyId
  }

  /** The keys left once the reconcile has deleted, or declined to delete, the oldest one. */
  function Kept(keys: seq<KeyMetadata>): (kept: seq<KeyMetadata>) {
    if |keys| == 2 then Without(keys, OldestId(keys)) else keys
  }

  /** Every call a fully successful rotation makes, in order. */
  function Plan(w: World, stampTime: int, r: Responses): (p: seq<Call>) {
    var spec := w.recycler.spec;
    [GetSecret(spec.secret), ListAccessKeys(spec.iamUser)]
    + (if |w.accessKeys| == 2 then [DeleteAccessKey(spec.iamUser, OldestId(w.accessKeys))] else [])
    + [CreateAccessKey(spec.iamUser),
       UpdateSecret(spec.secret, Published(spec, r.issued)),
       UpdateStatus(IAMRecyclerStatus(Some(stampTime)))]
  }

  /** What the collaborator answered to a call of this reconcile. */
  function AnswerTo(c: Call, w: World, r: Responses): (answer: Option<Error>) {
    match c
    case GetSecret(name) => if r.getSecret.Some? then r.getSecret else if name in w.secrets then None else Some(NotFound(name))
    case ListAccessKeys(_) => r.listKeys
    case DeleteAccessKey(_, _) => r.deleteKey
    case CreateAccessKey(_) => r.createKey
    case UpdateSecret(_, _) => r.updateSecret
    case UpdateStatus(_) => r.updateStatus
  }

  // ---------------------------------------------------------------- the schedule

  /** A recycler that was never recycled is due at any time. */
  lemma NeverRecycledIsDue(recycle: int, now: int)
    ensures DueCheck(InitialStatus, recycle, now) == Due
  {
  }

  /** One minute before the interval is over the wait is one minute; from the end of the interval on it is due. */
  lemma DueCheckBoundary(last: int, recycle: int, now: int)
    requires recycle >= 1
    ensures DueCheck(IAMRecyclerStatus(Some(last)), recycle, last + Minute * (recycle - 1)) == Wait(Minute)
    ensures now >= last + Minute * recycle ==> DueCheck(IAMRecyclerStatus(Some(last)), recycle, now) == Due
  {
  }

  /** Not due: return the rest of the interval, make no call, change nothing. */
  lemma NotDueWaits(w: World, now: int, stampTime: int, r: Responses)
    requires w.recycler.status.lastRecycleTime.Some?
    requires now < w.recycler.status.lastRecycleTime.value + RecycleInterval(w.recycler.spec)
    ensures var o := Reconciled(w, now, stampTime, r);
      && o.world == w && o.trace == [] && o.err.None?
      && o.result.requeueAfter == w.recycler.status.lastRecycleTime.value + RecycleInterval(w.recycler.spec) - now
      && o.result.requeueAfter > 0
  {
  }

  // ---------------------------------------------------------------- call order and aborts

  /**
   * Due: the reconcile starts with the Secret fetch and its calls are a prefix of
   * the plan: none is skipped, none reordered, none repeated, none made after a failure.
   */
  lemma DueFollowsPlan(w: World, now: int, stampTime: int, r: Responses)
    requires IsDue(w, now)
    ensures var o := Reconciled(w, now, stampTime, r);
      && 1 <= |o.trace| <= |Plan(w, stampTime, r)|
      && o.trace == Plan(w, stampTime, r)[..|o.trace|]
      && o.trace[0] == GetSecret(w.recycler.spec.secret)
  {
    if Listed(w, r) {
      if |w.accessKeys| == 2 && r.deleteKey.Some? {
        DeleteFailureCreatesNothing(w, now, stampTime, r);
      } else if r.createKey.Some? {
        CreateFailureKeepsPrune(w, now, stampTime, r);
      } else if r.updateSecret.Some? {
        SecretUpdateFailureKeepsNewKey(w, now, stampTime, r);
      } else if r.updateStatus.Some? {
        StatusUpdateFailureKeepsStatus(w, now, stampTime, r);
      } else {
        SuccessfulRotation(w, now, stampTime, r);
      }
    } else {
      NotListed(w, now, stampTime, r);
    }
  }

  /** Due, but the fetch, the guard or the listing stopped the reconcile: one or two calls, nothing changed. */
  lemma NotListed(w: World, now: int, stampTime: int, r: Responses)
    requires IsDue(w, now) && !Listed(w, r)
    ensures var o := Reconciled(w, now, stampTime, r);
      var spec := w.recycler.spec;
      && o.world == w && o.result == NoRequeue
      && (Writable(w, r) ==>
            o.trace == [GetSecret(spec.secret), ListAccessKeys(spec.iamUser)] && o.err == r.listKeys)
      && (!Writable(w, r) ==>
            && o.trace == [GetSecret(spec.secret)] && o.err == AnswerTo(GetSecret(spec.secret), w, r)
            && (o.err.None? <==>
                  r.getSecret.None? && spec.secret in w.secrets && w.secrets[spec.secret].immutable == Some(true)))
  {
  }

  /** Due with a writable Secret and a successful listing: the rest of the reconcile is Renewal. */
  lemma DueAndListed(w: World, now: int, stampTime: int, r: Responses)
    requires IsDue(w, now) && Listed(w, r)
    ensures var spec := w.recycler.spec;
      var o := Renewal(w, w.secrets[spec.secret], stampTime, r);
      Reconciled(w, now, stampTime, r) == o.(trace := [GetSecret(spec.secret), ListAccessKeys(spec.iamUser)] + o.trace)
  {
  }

  /** A key was created: the rest of the reconcile is Publication. */
  lemma CreatedThenPublication(w: World, found: Secret, stampTime: int, r: Responses)
    requires (|w.accessKeys| == 2 ==> r.deleteKey.None?) && r.createKey.None?
    ensures var user := w.recycler.spec.iamUser;
      var t := (if |w.accessKeys| == 2 then [DeleteAccessKey(user, OldestId(w.accessKeys))] else []) + [CreateAccessKey(user)];
      var o := Publication(w.(accessKeys := Kept(w.accessKeys) + [Metadata(r.issued)]), found, stampTime, r);
      Renewal(w, found, stampTime, r) == o.(trace := t + o.trace)
  {
  }

  /** The planned calls create a key exactly once. */
  lemma PlanCreatesOnce(w: World, stampTime: int, r: Responses)
    ensures var p := Plan(w, stampTime, r);
      forall i :: 0 <= i < |p| ==> (p[i].CreateAccessKey? <==> i == |p| - 3)
  {
  }

  /** No catch-up: whatever the reconcile does when due, it attempts at most one rotation. */
  lemma DueRotatesAtMostOnce(w: World, now: int, stampTime: int, r: Responses)
    requires IsDue(w, now)
    ensures var t := Reconciled(w, now, stampTime, r).trace;
      forall i, j :: 0 <= i < j < |t| && t[i].CreateAccessKey? ==> !t[j].CreateAccessKey?
  {
    DueFollowsPlan(w, now, stampTime, r);
    PlanCreatesOnce(w, stampTime, r);
    var t := Reconciled(w, now, stampTime, r).trace;
    var p := Plan(w, stampTime, r);
    forall i, j | 0 <= i < j < |t| && t[i].CreateAccessKey?
      ensures !t[j].CreateAccessKey?
    {
      assert t[i] == p[i] && t[j] == p[j];
    }
  }

  /**
   * An error comes from the last call made, unchanged; a reconcile without error
   * either stopped at an immutable Secret or made every planned call.
   */
  lemma ErrorIsAnswerToLastCall(w: World, now: int, stampTime: int, r: Responses)
    requires IsDue(w, now)
    ensures var o := Reconciled(w, now, stampTime, r);
      && (o.err.Some? ==> o.err == AnswerTo(o.trace[|o.trace| - 1], w, r))
      && (o.err.None? ==> o.trace == [GetSecret(w.recycler.spec.secret)] || o.trace == Plan(w, stampTime, r))
  {
    if Listed(w, r) {
      ListedErrorIsAnswerToLastCall(w, now, stampTime, r);
    } else {
      NotListed(w, now, stampTime, r);
    }
  }

  /** ErrorIsAnswerToLastCall once the listing succeeded: one case per call that can fail. */
  lemma ListedErrorIsAnswerToLastCall(w: World, now: int, stampTime: int, r: Responses)
    requires IsDue(w, now) && Listed(w, r)
    ensures var o := Reconciled(w, now, stampTime, r);
      && (o.err.Some? ==> o.err == AnswerTo(o.trace[|o.trace| - 1], w, r))
      && (o.err.None? ==> o.trace == Plan(w, stampTime, r))
  {
    if |w.accessKeys| == 2 && r.deleteKey.Some? {
      DeleteFailureCreatesNothing(w, now, stampTime, r);
    } else if r.createKey.Some? {
      CreateFailureKeepsPrune(w, now, stampTime, r);
    } else if r.updateSecret.Some? {
      SecretUpdateFailureKeepsNewKey(w, now, stampTime, r);
    } else if r.updateStatus.Some? {
      StatusUpdateFailureKeepsStatus(w, now, stampTime, r);
    } else {
      SuccessfulRotation(w, now, stampTime, r);
    }
  }

  /** The plan has five or six calls: third a delete with two keys and a create otherwise; last the status update. */
  lemma PlanShape(w: World, stampTime: int, r: Responses)
    ensures var p := Plan(w, stampTime, r);
      && |p| == (if |w.accessKeys| == 2 then 6 else 5)
      && (|w.accessKeys| == 2 ==> p[2].DeleteAccessKey?)
      && (|w.accessKeys| != 2 ==> p[2].CreateAccessKey?)
      && p[|p| - 1].UpdateStatus?
  {
  }

  // ---------------------------------------------------------------- the Secret guard

  /** An immutable Secret: nothing is listed, deleted, created or written; no error, no requeue. */
  lemma ImmutableSecretStopsQuietly(w: World, now: int, stampTime: int, r: Responses)
    requires IsDue(w, now)
    requires r.getSecret.None? && w.recycler.spec.secret in w.secrets
    requires w.secrets[w.recycler.spec.secret].immutable == Some(true)
    ensures var o := Reconciled(w, now, stampTime, r);
      && o.world == w && o.trace == [GetSecret(w.recycler.spec.secret)]
      && o.result == NoRequeue && o.err.None?
  {
  }

  /** A missing Secret ends the reconcile with NotFound before any IAM call. */
  lemma MissingSecretIsNotFound(w: World, now: int, stampTime: int, r: Responses)
    requires IsDue(w, now)
    requires r.getSecret.None? && w.recycler.spec.secret !in w.secrets
    ensures var o := Reconciled(w, now, stampTime, r);
      && o.world == w && o.trace == [GetSecret(w.recycler.spec.secret)]
      && o.result == NoRequeue && o.err == Some(NotFound(w.recycler.spec.secret))
  {
  }

  /** Only the target Secret can change, and never one that is immutable. */
  lemma OnlyTheTargetSecretIsWritten(w: World, now: int, stampTime: int, r: Responses)
    ensures var o := Reconciled(w, now, stampTime, r);
      && o.world.secrets.Keys == w.secrets.Keys
      && (forall n :: n in w.secrets && n != w.recycler.spec.secret ==> o.world.secrets[n] == w.secrets[n])
      && (w.recycler.spec.secret in w.secrets && w.secrets[w.recycler.spec.secret].immutable == Some(true) ==>
            o.world.secrets == w.secrets)
  {
  }

  // ---------------------------------------------------------------- pruning

  /** On two keys, the sort and OldestIndex choose the same key to delete. */
  lemma SortAgreesOnTwo(keys: seq<KeyMetadata>)
    requires |keys| == 2
    ensures SortByCreate(keys)[0] == keys[OldestIndex(keys)]
    ensures OldestIndex(keys) == if CreatedBefore(keys[1], keys[0]) then 1 else 0
  {
    assert keys == [keys[0], keys[1]];
    SortTwo(keys[0], keys[1]);
  }

  /**
   * Exactly two keys: the third call deletes the oldest of them, the first listed on
   * a tie of creation dates.
   */
  lemma PruneDeletesOldestOfTwo(w: World, now: int, stampTime: int, r: Responses)
    requires IsDue(w, now) && Listed(w, r) && |w.accessKeys| == 2
    ensures var o := Reconciled(w, now, stampTime, r);
      && |o.trace| >= 3
      && o.trace[2] == DeleteAccessKey(w.recycler.spec.iamUser, OldestId(w.accessKeys))
    ensures var keys := w.accessKeys;
      && OldestId(keys) == keys[OldestIndex(keys)].accessKeyId
      && keys[OldestIndex(keys)].createDate <= keys[0].createDate
      && keys[OldestIndex(keys)].createDate <= keys[1].createDate
      && (keys[0].createDate == keys[1].createDate ==> OldestIndex(keys) == 0)
  {
    SortAgreesOnTwo(w.accessKeys);
  }

  /** Any other number of keys: no delete call, and a key is still created. */
  lemma NoPruneUnlessTwo(w: World, now: int, stampTime: int, r: Responses)
    requires IsDue(w, now) && Listed(w, r) && |w.accessKeys| != 2
    ensures var t := Reconciled(w, now, stampTime, r).trace;
      && |t| >= 3 && t[2] == CreateAccessKey(w.recycler.spec.iamUser)
      && forall i :: 0 <= i < |t| ==> !t[i].DeleteAccessKey?
  {
  }

  /** A failed delete: no key is created and nothing changes. */
  lemma DeleteFailureCreatesNothing(w: World, now: int, stampTime: int, r: Responses)
    requires IsDue(w, now) && Listed(w, r) && |w.accessKeys| == 2 && r.deleteKey.Some?
    ensures var o := Reconciled(w, now, stampTime, r);
      && o.world == w && o.err == r.deleteKey && o.result == NoRequeue
      && o.trace == Plan(w, stampTime, r)[..3]
      && o.err == AnswerTo(o.trace[2], w, r)
      && forall i :: 0 <= i < |o.trace| ==> !o.trace[i].CreateAccessKey?
  {
  }

  /** A failed create: the deletion stays, the Secret and the status do not change. */
  lemma CreateFailureKeepsPrune(w: World, now: int, stampTime: int, r: Responses)
    requires IsDue(w, now) && Listed(w, r) && (|w.accessKeys| == 2 ==> r.deleteKey.None?) && r.createKey.Some?
    ensures var o := Reconciled(w, now, stampTime, r);
      && o.world == w.(accessKeys := Kept(w.accessKeys))
      && o.err == r.createKey && o.result == NoRequeue
      && o.trace == Plan(w, stampTime, r)[..|Plan(w, stampTime, r)| - 2]
      && o.trace[|o.trace| - 1] == CreateAccessKey(w.recycler.spec.iamUser)
      && o.err == AnswerTo(o.trace[|o.trace| - 1], w, r)
  {
    DueAndListed(w, now, stampTime, r);
    var spec := w.recycler.spec;
    var head := [GetSecret(spec.secret), ListAccessKeys(spec.iamUser)]
      + (if |w.accessKeys| == 2 then [DeleteAccessKey(spec.iamUser, OldestId(w.accessKeys))] else [])
      + [CreateAccessKey(spec.iamUser)];
    var p := Plan(w, stampTime, r);
    assert p == head + [UpdateSecret(spec.secret, Published(spec, r.issued)), UpdateStatus(IAMRecyclerStatus(Some(stampTime)))];
    assert p[..|p| - 2] == head;
  }

  /** A failed Secret update: the new key stays in place, the Secret and the status do not change. */
  lemma SecretUpdateFailureKeepsNewKey(w: World, now: int, stampTime: int, r: Responses)
    requires IsDue(w, now) && Listed(w, r) && (|w.accessKeys| == 2 ==> r.deleteKey.None?)
    requires r.createKey.None? && r.updateSecret.Some?
    ensures var o := Reconciled(w, now, stampTime, r);
      && o.world == w.(accessKeys := Kept(w.accessKeys) + [Metadata(r.issued)])
      && o.err == r.updateSecret && o.result == NoRequeue
      && o.trace == Plan(w, stampTime, r)[..|Plan(w, stampTime, r)| - 1]
      && o.trace[|o.trace| - 1] == UpdateSecret(w.recycler.spec.secret, Published(w.recycler.spec, r.issued))
      && o.err == AnswerTo(o.trace[|o.trace| - 1], w, r)
  {
    DueAndListed(w, now, stampTime, r);
    CreatedThenPublication(w, w.secrets[w.recycler.spec.secret], stampTime, r);
    var spec := w.recycler.spec;
    var head := [GetSecret(spec.secret), ListAccessKeys(spec.iamUser)]
      + (if |w.accessKeys| == 2 then [DeleteAccessKey(spec.iamUser, OldestId(w.accessKeys))] else [])
      + [CreateAccessKey(spec.iamUser), UpdateSecret(spec.secret, Published(spec, r.issued))];
    var p := Plan(w, stampTime, r);
    assert p == head + [UpdateStatus(IAMRecyclerStatus(Some(stampTime)))];
    assert p[..|p| - 1] == head;
  }

  /** A failed status update: the key is rotated and published, the status is not stamped. */
  lemma StatusUpdateFailureKeepsStatus(w: World, now: int, stampTime: int, r: Responses)
    requires IsDue(w, now) && Listed(w, r) && (|w.accessKeys| == 2 ==> r.deleteKey.None?)
    requires r.createKey.None? && r.updateSecret.None? && r.updateStatus.Some?
    ensures var o := Reconciled(w, now, stampTime, r);
      var name := w.recycler.spec.secret;
      && o.world.recycler == w.recycler
      && o.world.accessKeys == Kept(w.accessKeys) + [Metadata(r.issued)]
      && o.world.secrets == w.secrets[name := w.secrets[name].(stringData := Published(w.recycler.spec, r.issued))]
      && o.err == r.updateStatus && o.result == NoRequeue
      && o.trace == Plan(w, stampTime, r)
      && o.err == AnswerTo(o.trace[|o.trace| - 1], w, r)
  {
    DueAndListed(w, now, stampTime, r);
    CreatedThenPublication(w, w.secrets[w.recycler.spec.secret], stampTime, r);
  }

  /** Any reconcile that ends with an error leaves the status as it was. */
  lemma FailureLeavesStatus(w: World, now: int, stampTime: int, r: Responses)
    ensures var o := Reconciled(w, now, stampTime, r);
      o.err.Some? ==> o.world.recycler == w.recycler
  {
  }

  // ---------------------------------------------------------------- success

  /**
   * Full success: the new key is published into the Secret, the status is stamped with
   * stampTime, and the requeue is the whole interval, however late the rotation ran.
   */
  lemma SuccessfulRotation(w: World, now: int, stampTime: int, r: Responses)
    requires IsDue(w, now) && Listed(w, r) && (|w.accessKeys| == 2 ==> r.deleteKey.None?)
    requires r.createKey.None? && r.updateSecret.None? && r.updateStatus.None?
    ensures var o := Reconciled(w, now, stampTime, r);
      var name := w.recycler.spec.secret;
      && o.err.None? && o.result == CtrlResult(RecycleInterval(w.recycler.spec))
      && o.world.recycler == w.recycler.(status := IAMRecyclerStatus(Some(stampTime)))
      && o.world.secrets == w.secrets[name := w.secrets[name].(stringData := Published(w.recycler.spec, r.issued))]
      && o.world.accessKeys == Kept(w.accessKeys) + [Metadata(r.issued)]
      && o.trace == Plan(w, stampTime, r)
  {
    DueAndListed(w, now, stampTime, r);
    CreatedThenPublication(w, w.secrets[w.recycler.spec.secret], stampTime, r);
  }

  /** Once the key is created, the user holds the kept keys followed by the new one. */
  lemma KeysAfterCreate(w: World, now: int, stampTime: int, r: Responses)
    requires IsDue(w, now) && Listed(w, r) && (|w.accessKeys| == 2 ==> r.deleteKey.None?) && r.createKey.None?
    ensures Reconciled(w, now, stampTime, r).world.accessKeys == Kept(w.accessKeys) + [Metadata(r.issued)]
  {
    DueAndListed(w, now, stampTime, r);
    CreatedThenPublication(w, w.secrets[w.recycler.spec.secret], stampTime, r);
  }

  /** Of two keys, the one kept is the younger, or the second listed on a tie. */
  lemma KeptOfTwo(a: KeyMetadata, b: KeyMetadata)
    requires a.accessKeyId != b.accessKeyId
    ensures Kept([a, b]) == if CreatedBefore(b, a) then [a] else [b]
  {
    SortTwo(a, b);
    assert [a, b][..1] == [a];
    assert [a][..0] == [];
    if CreatedBefore(b, a) {
      assert OldestId([a, b]) == b.accessKeyId;
      assert Without([a, b], b.accessKeyId) == Without([a], b.accessKeyId);
    } else {
      assert OldestId([a, b]) == a.accessKeyId;
      assert Without([a], a.accessKeyId) == [];
    }
  }

  /**
   * With unique key ids, at most two keys and a fresh id from CreateAccessKey: once the key is
   * created the user holds at most two keys, exactly two if it held two, the ids stay unique and
   * the key listed last is the one just issued.
   */
  lemma RotationKeepsAtMostTwoKeys(w: World, now: int, stampTime: int, r: Responses)
    requires IsDue(w, now) && Listed(w, r) && (|w.accessKeys| == 2 ==> r.deleteKey.None?) && r.createKey.None?
    requires UniqueIds(w.accessKeys) && |w.accessKeys| <= 2
    requires forall i :: 0 <= i < |w.accessKeys| ==> w.accessKeys[i].accessKeyId != r.issued.accessKeyId
    ensures var keys := Reconciled(w, now, stampTime, r).world.accessKeys;
      && |keys| <= 2 && (|w.accessKeys| == 2 ==> |keys| == 2)
      && UniqueIds(keys)
      && keys[|keys| - 1] == Metadata(r.issued)
  {
    KeysAfterCreate(w, now, stampTime, r);
    KeptPlusNewKey(w.accessKeys, Metadata(r.issued));
  }

  /**
   * IAM dates a new key when it creates it, so the issued key is not older than any key the
   * user already holds. Then, once the key is created, it is the newest key by creation date,
   * and with two keys before the rotation the next prune deletes the kept key, never the one
   * just published. In the model's listing order the new key is last, which settles a tie in
   * dates; when the issued key is strictly newer, the next prune spares it in either order.
   */
  lemma IssuedKeyIsNewest(w: World, now: int, stampTime: int, r: Responses)
    requires IsDue(w, now) && Listed(w, r) && (|w.accessKeys| == 2 ==> r.deleteKey.None?) && r.createKey.None?
    requires UniqueIds(w.accessKeys)
    requires forall i :: 0 <= i < |w.accessKeys| ==> w.accessKeys[i].accessKeyId != r.issued.accessKeyId
    requires forall i :: 0 <= i < |w.accessKeys| ==> w.accessKeys[i].createDate <= r.issued.createDate
    ensures var keys := Reconciled(w, now, stampTime, r).world.accessKeys;
      && (forall k :: k in keys ==> k.createDate <= r.issued.createDate)
      && (|w.accessKeys| == 2 ==> |keys| == 2 && OldestId(keys) != r.issued.accessKeyId)
      && (|w.accessKeys| == 2 && (forall i :: 0 <= i < |w.accessKeys| ==> w.accessKeys[i].createDate < r.issued.createDate) ==>
            OldestId([keys[1], keys[0]]) != r.issued.accessKeyId)
  {
    KeysAfterCreate(w, now, stampTime, r);
    NewKeyIsNewest(w.accessKeys, Metadata(r.issued));
  }

  /** IssuedKeyIsNewest on the key listing alone: the kept keys plus a key dated no earlier than any of them. */
  lemma NewKeyIsNewest(keys: seq<KeyMetadata>, m: KeyMetadata)
    requires UniqueIds(keys)
    requires forall i :: 0 <= i < |keys| ==> keys[i].accessKeyId != m.accessKeyId
    requires forall i :: 0 <= i < |keys| ==> keys[i].createDate <= m.createDate
    ensures var ks := Kept(keys) + [m];
      && (forall k :: k in ks ==> k.createDate <= m.createDate)
      && (|keys| == 2 ==> |ks| == 2 && OldestId(ks) != m.accessKeyId)
      && (|keys| == 2 && (forall i :: 0 <= i < |keys| ==> keys[i].createDate < m.createDate) ==>
            OldestId([ks[1], ks[0]]) != m.accessKeyId)
  {
    if |keys| == 2 {
      var a, b := keys[0], keys[1];
      assert keys == [a, b];
      KeptOfTwo(a, b);
      var kept := if CreatedBefore(b, a) then a else b;
      assert Kept(keys) + [m] == [kept, m];
      OldestOfPair(kept, m);
      OldestOfPair(m, kept);
    }
  }

  /** The prune's choice between two listed keys: the second only when it is strictly older. */
  lemma OldestOfPair(x: KeyMetadata, y: KeyMetadata)
    ensures OldestId([x, y]) == if CreatedBefore(y, x) then y.accessKeyId else x.accessKeyId
  {
    SortTwo(x, y);
  }

  lemma KeptPlusNewKey(keys: seq<KeyMetadata>, m: KeyMetadata)
    requires UniqueIds(keys) && |keys| <= 2
    requires forall i :: 0 <= i < |keys| ==> keys[i].accessKeyId != m.accessKeyId
    ensures var ks := Kept(keys) + [m];
      && |ks| <= 2 && (|keys| == 2 ==> |ks| == 2)
      && UniqueIds(ks)
      && ks[|ks| - 1] == m
  {
    if |keys| == 2 {
      assert keys == [keys[0], keys[1]];
      KeptOfTwo(keys[0], keys[1]);
    }
  }

  /**
   * After a success, the next reconcile is due exactly one interval after stampTime: a
   * reconcile at stampTime itself makes no call and waits the whole interval.
   */
  lemma NextRunAnchoredAtStamp(w: World, now: int, stampTime: int, r: Responses, later: int, r2: Responses, stamp2: int)
    requires ValidSpec(w.recycler.spec)
    requires IsDue(w, now) && Listed(w, r) && (|w.accessKeys| == 2 ==> r.deleteKey.None?)
    requires r.createKey.None? && r.updateSecret.None? && r.updateStatus.None?
    ensures var o := Reconciled(w, now, stampTime, r);
      && (IsDue(o.world, later) <==> later >= stampTime + RecycleInterval(w.recycler.spec))
      && Reconciled(o.world, stampTime, stamp2, r2) == Outcome(o.world, [], CtrlResult(RecycleInterval(w.recycler.spec)), None)
  {
    SuccessfulRotation(w, now, stampTime, r);
  }

  /**
   * When the clock does not run backwards during a reconcile, a successful rotation (every
   * write answered without error) stamps LastRecycleTime with stampTime, strictly later than
   * the previous stamp.
   */
  lemma LastRecycleTimeAdvances(w: World, now: int, stampTime: int, r: Responses)
    requires ValidSpec(w.recycler.spec) && stampTime >= now
    requires IsDue(w, now) && Listed(w, r) && (|w.accessKeys| == 2 ==> r.deleteKey.None?)
    requires r.createKey.None? && r.updateSecret.None? && r.updateStatus.None?
    ensures var o := Reconciled(w, now, stampTime, r);
      var before, after := w.recycler.status.lastRecycleTime, o.world.recycler.status.lastRecycleTime;
      after == Some(stampTime) && (before.Some? ==> before.value < after.value)
  {
    SuccessfulRotation(w, now, stampTime, r);
  }

  // ---------------------------------------------------------------- validated names

  /** Every call names a non-empty Secret, user or field. */
  predicate NamesNonEmpty(c: Call) {
    match c
    case GetSecret(name) => |name| > 0
    case ListAccessKeys(user) => |user| > 0
    case DeleteAccessKey(user, _) => |user| > 0
    case CreateAccessKey(user) => |user| > 0
    case UpdateSecret(name, data) => |name| > 0 && forall k :: k in data ==> |k| > 0
    case UpdateStatus(_) => true
  }

  /** With a validated spec, every call of a reconcile names a non-empty Secret, user and fields. */
  lemma ValidSpecNamesEveryCall(w: World, now: int, stampTime: int, r: Responses)
    requires ValidSpec(w.recycler.spec)
    ensures var t := Reconciled(w, now, stampTime, r).trace;
      forall i :: 0 <= i < |t| ==> NamesNonEmpty(t[i])
  {
    if IsDue(w, now) {
      DueFollowsPlan(w, now, stampTime, r);
      var t := Reconciled(w, now, stampTime, r).trace;
      var p := Plan(w, stampTime, r);
      assert forall i :: 0 <= i < |p| ==> NamesNonEmpty(p[i]);
      assert forall i :: 0 <= i < |t| ==> t[i] == p[i];
    }
  }

  // ---------------------------------------------------------------- a worked scenario

  /**
   * Policy s1/AK/SK/svc-a/60, never recycled, one key k1 created at t0; reconcile five
   * minutes later: no delete, k2 created, published as AK and SK, status stamped, requeue 60 minutes.
   */
  lemma FirstRotationScenario(t0: int, r: Responses)
    requires r == Responses(None, None, None, None, AccessKey("k2", "secret-2", t0 + 5 * Minute), None, None)
    ensures var spec := IAMRecyclerSpec("s1", "AK", "SK", "svc-a", 60);
      var secret := Secret(map[], map[], None);
      var w := World(IAMRecycler(spec, InitialStatus), map["s1" := secret], [KeyMetadata("k1", t0)]);
      var o := Reconciled(w, t0 + 5 * Minute, t0 + 5 * Minute, r);
      && o.trace == [GetSecret("s1"), ListAccessKeys("svc-a"), CreateAccessKey("svc-a"),
                     UpdateSecret("s1", map["AK" := "k2", "SK" := "secret-2"]),
                     UpdateStatus(IAMRecyclerStatus(Some(t0 + 5 * Minute)))]
      && o.world.secrets["s1"].stringData == map["AK" := "k2", "SK" := "secret-2"]
      && o.world.accessKeys == [KeyMetadata("k1", t0), KeyMetadata("k2", t0 + 5 * Minute)]
      && o.world.recycler.status.lastRecycleTime == Some(t0 + 5 * Minute)
      && o.result == CtrlResult(60 * Minute) && o.err.None?
  {
    var spec := IAMRecyclerSpec("s1", "AK", "SK", "svc-a", 60);
    assert Published(spec, r.issued) == map["AK" := "k2", "SK" := "secret-2"];
    assert SortByCreate([KeyMetadata("k1", t0)]) == [KeyMetadata("k1", t0)];
  }
}
