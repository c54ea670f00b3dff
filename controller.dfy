/**
 * The IAMRecycler reconciler: one pass that checks whether the key of an IAM
 * user is due for rotation, and if so deletes its oldest key when it holds two,
 * creates a new one, publishes the new key into a Kubernetes Secret and stamps
 * the time of the rotation into the IAMRecycler status.
 *
 * The Kubernetes API server and the IAM service are state of the class
 * IAMRecyclerReconciler; what each call answers (success or an error) and the
 * key that CreateAccessKey issues are inputs (Responses), and every call made is
 * appended to a trace.
 */
module Controller {
  import opened Api
  import opened AccessKeys

  /** An error returned by a collaborator; Reconcile hands it back unchanged. */
  datatype Error = NotFound(name: string) | ApiError(message: string)

  /**
   * A Kubernetes Secret. data is what the Secret holds, stringData the write-only
   * field the reconciler fills, immutable the optional Immutable flag.
   */
  datatype Secret = Secret(data: map<string, string>, stringData: map<string, string>, immutable: Option<bool>)

  /** The key CreateAccessKey returns. */
  datatype AccessKey = AccessKey(accessKeyId: string, secretAccessKey: string, createDate: int)

  /** A call to the Kubernetes API server or the IAM service, with the arguments that matter. */
  datatype Call =
    | GetSecret(name: string)
    | ListAccessKeys(user: string)
    | DeleteAccessKey(user: string, accessKeyId: string)
    | CreateAccessKey(user: string)
    | UpdateSecret(name: string, stringData: map<string, string>)
    | UpdateStatus(status: IAMRecyclerStatus)

  /**
   * How the collaborators answer during one reconcile: None for success, Some(e)
   * for a failure with error e; issued is the key CreateAccessKey returns when it succeeds.
   */
  datatype Responses = Responses(
    getSecret: Option<Error>,
    listKeys: Option<Error>,
    deleteKey: Option<Error>,
    createKey: Option<Error>,
    issued: AccessKey,
    updateSecret: Option<Error>,
    updateStatus: Option<Error>)

  /** ctrl.Result as this reconciler uses it: only RequeueAfter, in nanoseconds; 0 means no requeue. */
  datatype CtrlResult = CtrlResult(requeueAfter: int)

  const NoRequeue: CtrlResult := CtrlResult(0)

  /** The external state one reconcile reads and writes. */
  datatype World = World(recycler: IAMRecycler, secrets: map<string, Secret>, accessKeys: seq<KeyMetadata>)

  /** What one reconcile does: the new state, the calls it made in order, and what it returns. */
  datatype Outcome = Outcome(world: World, trace: seq<Call>, result: CtrlResult, err: Option<Error>)

  datatype Schedule = Due | Wait(delay: int)

  /**
   * The due check: a recycler that was never recycled is due; otherwise it is due
   * once Recycle minutes have passed since the last rotation, and before that it
   * must wait for the rest of the interval.
   */
  function DueCheck(status: IAMRecyclerStatus, recycle: int, now: int): (s: Schedule)
    ensures s.Due? <==> status.lastRecycleTime.None? || status.lastRecycleTime.value + Minute * recycle <= now
    ensures s.Wait? ==> s.delay > 0 && now + s.delay == status.lastRecycleTime.value + Minute * recycle
  {
    match status.lastRecycleTime
    case None => Due
    case Some(last) =>
      var nextRun := last + Minute * recycle;
      if nextRun > now then Wait(nextRun - now) else Due
  }

  /** How ListAccessKeys reports a newly created key. */
  function Metadata(key: AccessKey): (m: KeyMetadata) {
    KeyMetadata(key.accessKeyId, key.createDate)
  }

  /**
   * The StringData the reconciler writes: exactly the two configured fields, the
   * access key id and the secret access key. When both fields have the same name
   * the secret access key, which is assigned second, is what remains.
   */
  function Published(spec: IAMRecyclerSpec, key: AccessKey): (data: map<string, string>)
    ensures data.Keys == {spec.dataKeyAccesskey, spec.dataKeySecretkey}
    ensures data[spec.dataKeySecretkey] == key.secretAccessKey
    ensures spec.dataKeyAccesskey != spec.dataKeySecretkey ==> data[spec.dataKeyAccesskey] == key.accessKeyId
  {
    map[spec.dataKeyAccesskey := key.accessKeyId][spec.dataKeySecretkey := key.secretAccessKey]
  }

  /** The specification of one reconcile, started at time now; stampTime is what v1.Now() reads at the end. */
  function Reconciled(w: World, now: int, stampTime: int, r: Responses): (o: Outcome)
    ensures o.world.recycler.spec == w.recycler.spec
  {
    var spec := w.recycler.spec;
    match DueCheck(w.recycler.status, spec.recycle, now)
    case Wait(delay) => Outcome(w, [], CtrlResult(delay), None)
    case Due => Rotation(w, stampTime, r)
  }

  /**
   * A rotation once it is due: fetch the Secret, refuse an immutable one, then go on
   * with Listing. The first failing call ends the rotation with its error.
   */
  function Rotation(w: World, stampTime: int, r: Responses): (o: Outcome)
    ensures o.world.recycler.spec == w.recycler.spec
  {
    var spec := w.recycler.spec;
    var t1 := [GetSecret(spec.secret)];
    if r.getSecret.Some? then Outcome(w, t1, NoRequeue, r.getSecret)
    else if spec.secret !in w.secrets then Outcome(w, t1, NoRequeue, Some(NotFound(spec.secret)))
    else if w.secrets[spec.secret].immutable == Some(true) then Outcome(w, t1, NoRequeue, None)
    else
      var o := Listing(w, w.secrets[spec.secret], stampTime, r);
      o.(trace := t1 + o.trace)
  }

  /** List the user's access keys, then go on with Renewal. found is the Secret fetched before. */
  function Listing(w: World, found: Secret, stampTime: int, r: Responses): (o: Outcome)
    ensures o.world.recycler.spec == w.recycler.spec
  {
    var t2 := [ListAccessKeys(w.recycler.spec.iamUser)];
    if r.listKeys.Some? then Outcome(w, t2, NoRequeue, r.listKeys)
    else
      var o := Renewal(w, found, stampTime, r);
      o.(trace := t2 + o.trace)
  }

  /**
   * The rotation after a successful listing: delete the oldest key when there are
   * exactly two, then go on with Issuance. found is the Secret fetched before.
   */
  function Renewal(w: World, found: Secret, stampTime: int, r: Responses): (o: Outcome)
    ensures o.world.recycler.spec == w.recycler.spec
  {
    var listed := SortByCreate(w.accessKeys);
    if |listed| == 2 then
      var t3 := [DeleteAccessKey(w.recycler.spec.iamUser, listed[0].accessKeyId)];
      if r.deleteKey.Some? then Outcome(w, t3, NoRequeue, r.deleteKey)
      else
        var o := Issuance(w.(accessKeys := Without(w.accessKeys, listed[0].accessKeyId)), found, stampTime, r);
        o.(trace := t3 + o.trace)
    else Issuance(w, found, stampTime, r)
  }

  /** Create a key, then go on with Publication. */
  function Issuance(w: World, found: Secret, stampTime: int, r: Responses): (o: Outcome)
    ensures o.world.recycler.spec == w.recycler.spec
  {
    var t4 := [CreateAccessKey(w.recycler.spec.iamUser)];
    if r.createKey.Some? then Outcome(w, t4, NoRequeue, r.createKey)
    else
      var o := Publication(w.(accessKeys := w.accessKeys + [Metadata(r.issued)]), found, stampTime, r);
      o.(trace := t4 + o.trace)
  }

  /**
   * The rotation once the new key exists: write it into the Secret, then stamp
   * the status and requeue after the recycle interval.
   */
  function Publication(w: World, found: Secret, stampTime: int, r: Responses): (o: Outcome)
    ensures o.world.recycler.spec == w.recycler.spec
  {
    var spec := w.recycler.spec;
    var data := Published(spec, r.issued);
    var t5 := [UpdateSecret(spec.secret, data)];
    if r.updateSecret.Some? then Outcome(w, t5, NoRequeue, r.updateSecret)
    else
      var w6 := w.(secrets := w.secrets[spec.secret := found.(stringData := data)]);
      var status := IAMRecyclerStatus(Some(stampTime));
      var t6 := t5 + [UpdateStatus(status)];
      if r.updateStatus.Some? then Outcome(w6, t6, NoRequeue, r.updateStatus)
      else Outcome(w6.(recycler := w6.recycler.(status := status)), t6, CtrlResult(RecycleInterval(spec)), None)
  }

  /**
   * The reconciler together with the state it reaches through its clients: the
   * stored IAMRecycler, the Secrets of its namespace, the access keys of the IAM
   * user, and the calls made so far.
   */
  class IAMRecyclerReconciler {
    var recycler: IAMRecycler
    var secrets: map<string, Secret>
    var accessKeys: seq<KeyMetadata>
    var calls: seq<Call>

    constructor (recycler: IAMRecycler, secrets: map<string, Secret>, accessKeys: seq<KeyMetadata>)
      ensures State() == World(recycler, secrets, accessKeys)
      ensures calls == []
    {
      this.recycler := recycler;
      this.secrets := secrets;
      this.accessKeys := accessKeys;
      this.calls := [];
    }

    function State(): (w: World)
      reads this
    {
      World(recycler, secrets, accessKeys)
    }

    /**
     * One reconcile at time now. The state afterwards, the calls appended to the
     * trace and the returned result and error are those of Reconciled.
     */
    method Reconcile(now: int, stampTime: int, r: Responses) returns (result: CtrlResult, err: Option<Error>)
      requires ValidSpec(recycler.spec)
      modifies this
      ensures var o := Reconciled(old(State()), now, stampTime, r);
        && State() == o.world
        && calls == old(calls) + o.trace
        && result == o.result
        && err == o.err
    {
      var iamrecycler := recycler;
      var spec := iamrecycler.spec;

      var schedule := DueCheck(iamrecycler.status, spec.recycle, now);
      if schedule.Wait? {
        return CtrlResult(schedule.delay), None;
      }
      result, err := Rotate(stampTime, r);
    }

    /** A due rotation: fetches the Secret, stops at an immutable one and hands over to List. */
    method Rotate(stampTime: int, r: Responses) returns (result: CtrlResult, err: Option<Error>)
      modifies this
      ensures var o := Rotation(old(State()), stampTime, r);
        && State() == o.world
        && calls == old(calls) + o.trace
        && result == o.result
        && err == o.err
    {
      ghost var w := State();
      var spec := recycler.spec;

      calls := calls + [GetSecret(spec.secret)];
      if r.getSecret.Some? {
        return NoRequeue, r.getSecret;
      }
      if spec.secret !in secrets {
        return NoRequeue, Some(NotFound(spec.secret));
      }
      var foundSecret := secrets[spec.secret];
      if foundSecret.immutable == Some(true) {
        return NoRequeue, None;
      }

      ghost var t1 := [GetSecret(spec.secret)];
      ghost var o := Listing(w, foundSecret, stampTime, r);
      assert Rotation(w, stampTime, r) == o.(trace := t1 + o.trace);
      result, err := List(foundSecret, stampTime, r);
      assert calls == old(calls) + (t1 + o.trace);
    }

    /** Lists the user's keys and hands over to Renew. */
    method List(foundSecret: Secret, stampTime: int, r: Responses) returns (result: CtrlResult, err: Option<Error>)
      modifies this
      ensures var o := Listing(old(State()), foundSecret, stampTime, r);
        && State() == o.world
        && calls == old(calls) + o.trace
        && result == o.result
        && err == o.err
    {
      ghost var w := State();
      calls := calls + [ListAccessKeys(recycler.spec.iamUser)];
      if r.listKeys.Some? {
        return NoRequeue, r.listKeys;
      }
      ghost var t2 := [ListAccessKeys(recycler.spec.iamUser)];
      ghost var o := Renewal(w, foundSecret, stampTime, r);
      assert Listing(w, foundSecret, stampTime, r) == o.(trace := t2 + o.trace);
      result, err := Renew(foundSecret, stampTime, r);
      assert calls == old(calls) + (t2 + o.trace);
    }

    /** Deletes the older of exactly two listed keys and hands over to Issue. */
    method Renew(foundSecret: Secret, stampTime: int, r: Responses) returns (result: CtrlResult, err: Option<Error>)
      modifies this
      ensures var o := Renewal(old(State()), foundSecret, stampTime, r);
        && State() == o.world
        && calls == old(calls) + o.trace
        && result == o.result
        && err == o.err
    {
      ghost var w := State();
      var spec := recycler.spec;
      var listKeys := SortedListing(accessKeys);

      if listKeys.Length == 2 {
        var oldest := listKeys[0].accessKeyId;
        calls := calls + [DeleteAccessKey(spec.iamUser, oldest)];
        if r.deleteKey.Some? {
          return NoRequeue, r.deleteKey;
        }
        accessKeys := Without(accessKeys, oldest);
        ghost var t3 := [DeleteAccessKey(spec.iamUser, oldest)];
        ghost var o := Issuance(State(), foundSecret, stampTime, r);
        assert Renewal(w, foundSecret, stampTime, r) == o.(trace := t3 + o.trace);
        result, err := Issue(foundSecret, stampTime, r);
        assert calls == old(calls) + (t3 + o.trace);
      } else {
        result, err := Issue(foundSecret, stampTime, r);
      }
    }

    /** Creates a new key for the user and hands it over to Publish. */
    method Issue(foundSecret: Secret, stampTime: int, r: Responses) returns (result: CtrlResult, err: Option<Error>)
      modifies this
      ensures var o := Issuance(old(State()), foundSecret, stampTime, r);
        && State() == o.world
        && calls == old(calls) + o.trace
        && result == o.result
        && err == o.err
    {
      ghost var w := State();
      calls := calls + [CreateAccessKey(recycler.spec.iamUser)];
      if r.createKey.Some? {
        return NoRequeue, r.createKey;
      }
      var newKey := r.issued;
      accessKeys := accessKeys + [Metadata(newKey)];
      ghost var t4 := [CreateAccessKey(w.recycler.spec.iamUser)];
      ghost var o := Publication(State(), foundSecret, stampTime, r);
      assert Issuance(w, foundSecret, stampTime, r) == o.(trace := t4 + o.trace);
      result, err := Publish(foundSecret, newKey, stampTime, r);
      assert calls == old(calls) + (t4 + o.trace);
    }

    /** Copies the listing ListAccessKeys returns into an array and sorts it in place. */
    static method SortedListing(listing: seq<KeyMetadata>) returns (listKeys: array<KeyMetadata>)
      ensures fresh(listKeys)
      ensures listKeys[..] == SortByCreate(listing)
    {
      listKeys := new KeyMetadata[|listing|](k requires 0 <= k < |listing| => listing[k]);
      assert listKeys[..] == listing;
      SortStable(listKeys);
    }

    /** Writes the new key into the fetched Secret, then stamps the IAMRecycler status. */
    method Publish(foundSecret: Secret, newKey: AccessKey, stampTime: int, r: Responses) returns (result: CtrlResult, err: Option<Error>)
      requires newKey == r.issued
      modifies this
      ensures var o := Publication(old(State()), foundSecret, stampTime, r);
        && State() == o.world
        && calls == old(calls) + o.trace
        && result == o.result
        && err == o.err
    {
      var iamrecycler := recycler;
      var spec := iamrecycler.spec;
      var data: map<string, string> := map[];
      data := data[spec.dataKeyAccesskey := newKey.accessKeyId];
      data := data[spec.dataKeySecretkey := newKey.secretAccessKey];
      var secret := foundSecret.(stringData := data);
      calls := calls + [UpdateSecret(spec.secret, data)];
      if r.updateSecret.Some? {
        return NoRequeue, r.updateSecret;
      }
      secrets := secrets[spec.secret := secret];

      var nextTime := stampTime;
      iamrecycler := iamrecycler.(status := iamrecycler.status.(lastRecycleTime := Some(nextTime)));
      calls := calls + [UpdateStatus(iamrecycler.status)];
      if r.updateStatus.Some? {
        return NoRequeue, r.updateStatus;
      }
      recycler := iamrecycler;
      return CtrlResult(RecycleInterval(spec)), None;
    }
  }
}
