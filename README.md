# IAM access-key recycler: a Dafny model of its reconcile loop

`iam-recycler` is a Kubernetes operator. An `IAMRecycler` custom resource (group
`aws.furio.me`, version `v1alpha1`) names four things: an IAM user, a Secret, the two
fields of that Secret that carry the key, and a rotation interval in minutes. Once the
interval since `Status.LastRecycleTime` has passed, the controller rotates the IAM user's
access key. It fetches the Secret and refuses an immutable one. It lists the user's keys
and sorts them stably by creation date. When the user holds exactly two keys it deletes
the oldest. It then creates a new key, writes the key id and secret into the two fields
of the Secret, stamps the status, and asks to be called again one interval later.

The model is in four modules:

- `Api` (`api_types.dfy`) holds the resource types and `ValidSpec`. `ValidSpec` states
  the kubebuilder validation markers: the four names have at least one character, and
  `Recycle` is at least 60.
- `AccessKeys` (`access_keys.dfy`) models the key listing and its stable sort by
  creation date. The sort is an in-place insertion sort on an `array`
  (`SortStable`). It is proved equal to a functional stable sort (`SortByCreate`).
  The project proves that `SortByCreate` is sorted, a permutation of its input and
  stable. It also proves that it is the only order with those properties
  (`SortByCreateIsTheStableOrder`), so it is the order Go's `sort.SliceStable`
  produces.
- `Controller` (`controller.dfy`) models one call of `Reconcile`.
  - `IAMRecyclerReconciler` is a class whose fields are the state the reconcile
    changes, plus the trace of calls it makes:
    - the resource;
    - the Secrets, keyed by name;
    - the user's access keys;
    - `calls`, the trace of calls to the Kubernetes API and to IAM.
  - Each method is proved to leave the class in exactly the state that a pure
    specification function computes: `Reconcile`/`Reconciled`, `Rotate`/`Rotation`,
    `List`/`Listing`, `Renew`/`Renewal`, `Issue`/`Issuance` and
    `Publish`/`Publication`.
- `ReconcileProperties` (`reconcile_properties.dfy`) proves what one reconcile
  promises, as lemmas about `Reconciled`. The lemmas cover:
  - the due check and the requeue delay;
  - the immutability guard;
  - which key is deleted;
  - the order of the calls, and that they stop at the first failure;
  - what each failure leaves behind;
  - what a successful rotation publishes;
  - how the status is stamped;
  - a worked first-rotation scenario.

The model does not call the cluster or AWS. The answer of every call is an input:
`Responses` holds one `Option<Error>` per call and the key that `CreateAccessKey`
issues. The time of the due check (`now`) and the time stamped into the status
(`stampTime`) are also inputs. All times are integer nanoseconds, as Go's
`time.Duration` counts them (`Minute` is 60·10⁹).

Behaviour worth noting:

- An immutable Secret ends the reconcile with no error and no requeue. At that
  point the code returns `err`, which is nil after the successful fetch.
- `Recycle` is at least 60 minutes, the value of the kubebuilder marker.
- The status stamp comes from `v1.Now()`, not from the injected clock. The model
  therefore keeps it as a separate input, `stampTime`.
- With more than two keys there is no delete, and a new key is still requested.
  The answer to that request is a free input (`createKey`), so the model does not
  enforce IAM's limit of two keys per user: three keys and a successful create end
  with four. `RotationKeepsAtMostTwoKeys` assumes the user starts with at most two.

## Model

| member | source | states |
|---|---|---|
| Api.RecycleInterval | api/v1alpha1/iamrecycler_types.go:39-40 | A validated `Recycle` gives an interval of at least 60 minutes. The interval is positive and a whole number of minutes. |
| Controller.DueCheck | controllers/iamrecycler_controller.go:86-92 | The reconcile is due exactly when `LastRecycleTime` is unset or `last + Recycle` minutes is not after `now`. Otherwise the wait is positive and ends exactly at `last + Recycle` minutes. |
| Controller.Published | controllers/iamrecycler_controller.go:162-167 | The string data written to the Secret has exactly the two configured field names as keys. The secret-key field holds the secret, and the access-key field holds the key id (unless the two names coincide, in which case the secret wins). |
| Controller.Reconciled | controllers/iamrecycler_controller.go:74-187 | One reconcile never changes the resource's Spec. |
| Controller.Rotation | controllers/iamrecycler_controller.go:94-106 | The Secret stage (fetch, NotFound, immutability guard, then `Listing`) leaves the Spec unchanged. |
| Controller.Listing | controllers/iamrecycler_controller.go:108-123 | The listing stage (list, stop on a list error, then `Renewal`) leaves the Spec unchanged. |
| Controller.Renewal | controllers/iamrecycler_controller.go:125-146 | The sort-and-prune stage leaves the Spec unchanged. |
| Controller.Issuance | controllers/iamrecycler_controller.go:148-160 | The create stage leaves the Spec unchanged. |
| Controller.Publication | controllers/iamrecycler_controller.go:162-186 | The Secret-update and status-stamp stage leaves the Spec unchanged. |
| Controller.IAMRecyclerReconciler.Reconcile | controllers/iamrecycler_controller.go:74-187 | The new resource, Secrets and keys, the calls appended to the trace, the result and the error are exactly those of `Reconciled` on the old state. |
| Controller.IAMRecyclerReconciler.Rotate | controllers/iamrecycler_controller.go:94-106 | The class does what `Rotation` specifies. It fetches the Secret and stops on a fetch error, on a missing Secret (NotFound) or on an immutable Secret. Otherwise it continues with `List`. |
| Controller.IAMRecyclerReconciler.List | controllers/iamrecycler_controller.go:108-123 | The class does what `Listing` specifies. It lists the user's keys, stops on a list error, and otherwise continues with `Renew`. |
| Controller.IAMRecyclerReconciler.Renew | controllers/iamrecycler_controller.go:125-146 | The class does what `Renewal` specifies. It sorts the listing stably and, with exactly two keys, deletes the first of the sorted listing. It stops on a delete error. |
| Controller.IAMRecyclerReconciler.Issue | controllers/iamrecycler_controller.go:148-160 | The class does what `Issuance` specifies. It requests a new key, stops on an error, and otherwise records the key and continues with `Publish`. |
| Controller.IAMRecyclerReconciler.Publish | controllers/iamrecycler_controller.go:162-186 | The class does what `Publication` specifies. It writes `Published` as the Secret's string data and stops on an update error. It stamps the status, stops on a status error, and otherwise requeues after one interval. |
| Controller.IAMRecyclerReconciler.SortedListing | controllers/iamrecycler_controller.go:115-127 | The listing is copied into a fresh array, which ends up holding `SortByCreate` of the listing. |
| Api.ValidSpec | api/v1alpha1/iamrecycler_types.go:31-40 | The kubebuilder validation markers: `Secret`, `DataKeyAccesskey`, `DataKeySecretkey` and `IAMUser` each have at least one character, and `Recycle` is at least 60. |
| AccessKeys.CreatedBefore | controllers/iamrecycler_controller.go:126 | The less function of the sort: one key precedes another exactly when its creation date is strictly earlier. |
| AccessKeys.InsertStable | controllers/iamrecycler_controller.go:125-127 | Inserting one key into a sorted prefix adds exactly one element. `InsertStablePermutes`, `InsertStableSorted` and `InsertStableKeepsDateOrder` state what it does. |
| AccessKeys.SortByCreate | controllers/iamrecycler_controller.go:125-127 | The result of `sort.SliceStable` on the listing has the listing's length. That it is sorted, a permutation, stable and the only such order is proved by the `SortByCreate*` lemmas below. |
| AccessKeys.SortStable | controllers/iamrecycler_controller.go:125-127 | The in-place sort leaves the array holding `SortByCreate` of its old contents. |
| AccessKeys.InsertLast | controllers/iamrecycler_controller.go:125-127 | After one insertion pass the whole array is `InsertStable` of the prefix `a[..i]` and `a[i]`, followed by the untouched cells after `i`. |
| AccessKeys.InsertStableAt | controllers/iamrecycler_controller.go:125-127 | A key goes in at position `j` when the key before `j` is not younger than it and every key from `j` on is strictly younger, so the insertion is the prefix up to `j`, the key, then the rest. |
| AccessKeys.SortByCreateSorted | controllers/iamrecycler_controller.go:125-127 | The sorted listing is in non-decreasing order of creation date. |
| AccessKeys.SortByCreatePermutes | controllers/iamrecycler_controller.go:125-127 | The sorted listing is a permutation of the listing. |
| AccessKeys.SortByCreateStable | controllers/iamrecycler_controller.go:125-127 | Keys with the same creation date keep their listed order. |
| AccessKeys.InsertStablePermutes | controllers/iamrecycler_controller.go:125-127 | One insertion adds exactly the inserted key to the multiset. |
| AccessKeys.InsertStableSorted | controllers/iamrecycler_controller.go:125-127 | Inserting into a sorted sequence keeps it sorted. |
| AccessKeys.InsertStableKeepsDateOrder | controllers/iamrecycler_controller.go:125-127 | An inserted key goes after every key of the same date. |
| AccessKeys.CreatedAtMembers | controllers/iamrecycler_controller.go:125-127 | A date group holds exactly the keys of the listing with that date. |
| AccessKeys.SortedWithSameGroupsAreEqual | controllers/iamrecycler_controller.go:125-127 | Two sorted sequences with the same date groups are equal. |
| AccessKeys.SortByCreateIsTheStableOrder | controllers/iamrecycler_controller.go:125-127 | Any sorted order that keeps every date group in listed order is `SortByCreate`, so the model's sort and `sort.SliceStable` agree. |
| AccessKeys.OldestIndex | controllers/iamrecycler_controller.go:131-136 | The index of the key the prune targets. It is the first key with the earliest creation date, and every key before it is strictly younger. |
| AccessKeys.SortedHeadIsOldest | controllers/iamrecycler_controller.go:125-136 | The head of the sorted listing, the key the prune deletes, is the first oldest key of the listing. |
| AccessKeys.SortTwo | controllers/iamrecycler_controller.go:125-136 | Two keys are swapped only when the second one was created strictly before the first. |
| AccessKeys.Without | controllers/iamrecycler_controller.go:133-137 | After `DeleteAccessKey` the user holds exactly the keys whose id differs from the deleted one. |
| ReconcileProperties.NeverRecycledIsDue | controllers/iamrecycler_controller.go:86-92 | A resource whose optional `LastRecycleTime` is unset (the `!= nil` test fails) is due at any time. |
| ReconcileProperties.DueCheckBoundary | controllers/iamrecycler_controller.go:86-92 | One minute before the interval ends the wait is one minute. From the end of the interval on, the reconcile is due. |
| ReconcileProperties.NotDueWaits | controllers/iamrecycler_controller.go:86-92 | When not due, the reconcile makes no call, changes nothing, returns no error and requeues after exactly the rest of the interval, which is positive. |
| ReconcileProperties.DueFollowsPlan | controllers/iamrecycler_controller.go:94-186 | A due reconcile starts with the Secret fetch. Its calls are a prefix of the planned sequence: get, list, the delete if there are two keys, create, Secret update, status update. |
| ReconcileProperties.PlanShape | controllers/iamrecycler_controller.go:131-182 | The plan has six calls with two keys and five otherwise. The third call is the delete when there are two keys and the create otherwise. The last is the status update. |
| ReconcileProperties.NotListed | controllers/iamrecycler_controller.go:94-123 | A due reconcile that does not reach the sort changes nothing and does not requeue. With a writable Secret it made the get and the list and returns the list error. Otherwise it made only the get; its error is that call's answer, and there is no error exactly when the fetch succeeded and the Secret is immutable. |
| ReconcileProperties.DueAndListed | controllers/iamrecycler_controller.go:94-127 | Once the Secret is writable and the listing succeeded, the rest of the reconcile is the prune-and-create stage. |
| ReconcileProperties.CreatedThenPublication | controllers/iamrecycler_controller.go:131-167 | Once the key is created, the rest of the reconcile is the publication stage, on the kept keys plus the new one. |
| ReconcileProperties.PlanCreatesOnce | controllers/iamrecycler_controller.go:148-152 | The planned calls create a key exactly once. |
| ReconcileProperties.DueRotatesAtMostOnce | controllers/iamrecycler_controller.go:148-160 | A due reconcile requests at most one new key, however late it runs. |
| ReconcileProperties.ErrorIsAnswerToLastCall | controllers/iamrecycler_controller.go:94-186 | An error returned is the unchanged answer to the last call made. A reconcile without error either stopped at an immutable Secret or made every planned call. |
| ReconcileProperties.ListedErrorIsAnswerToLastCall | controllers/iamrecycler_controller.go:125-186 | After a successful listing, an error returned is the unchanged answer to the last call made, and a reconcile without error made every planned call. |
| ReconcileProperties.ImmutableSecretStopsQuietly | controllers/iamrecycler_controller.go:103-106 | An immutable Secret stops the reconcile after the fetch, changes nothing, and gives no error and no requeue. |
| ReconcileProperties.MissingSecretIsNotFound | controllers/iamrecycler_controller.go:94-99 | A missing Secret ends the reconcile with NotFound before any IAM call, and changes nothing. |
| ReconcileProperties.OnlyTheTargetSecretIsWritten | controllers/iamrecycler_controller.go:162-174 | No Secret appears or disappears, and no Secret other than the target changes. An immutable target is never changed. |
| ReconcileProperties.SortAgreesOnTwo | controllers/iamrecycler_controller.go:125-136 | On two keys, the head of the sorted listing is the first oldest key. It is the second key only when that key is strictly older. |
| ReconcileProperties.PruneDeletesOldestOfTwo | controllers/iamrecycler_controller.go:131-137 | With exactly two keys, the third call deletes the oldest key, or the first listed when both have the same creation date. |
| ReconcileProperties.NoPruneUnlessTwo | controllers/iamrecycler_controller.go:131-152 | With any other number of keys there is no delete call, and the third call requests a new key. |
| ReconcileProperties.DeleteFailureCreatesNothing | controllers/iamrecycler_controller.go:137-145 | A failed delete returns its error, creates no key and changes nothing. |
| ReconcileProperties.CreateFailureKeepsPrune | controllers/iamrecycler_controller.go:152-160 | A failed create returns its error. The calls are the plan without its last two, the deletion stays, and the Secret and status are unchanged. |
| ReconcileProperties.SecretUpdateFailureKeepsNewKey | controllers/iamrecycler_controller.go:169-174 | A failed Secret update returns its error. The calls are the plan without the status update, the new key stays in IAM, and the Secret and status are unchanged. |
| ReconcileProperties.StatusUpdateFailureKeepsStatus | controllers/iamrecycler_controller.go:176-182 | A failed status update returns its error. The key is rotated and published, but the status keeps its old stamp. |
| ReconcileProperties.FailureLeavesStatus | controllers/iamrecycler_controller.go:96-182 | Any reconcile that returns an error leaves the resource unchanged. |
| ReconcileProperties.SuccessfulRotation | controllers/iamrecycler_controller.go:94-186 | On full success, the call sequence is the plan. The user holds the kept keys plus the new one, and the target Secret's string data is `Published`. The status is stamped with `stampTime`, there is no error, and the requeue is one whole interval. |
| ReconcileProperties.KeysAfterCreate | controllers/iamrecycler_controller.go:131-160 | Once a key is created, the user holds the kept keys followed by the new key. |
| ReconcileProperties.KeptOfTwo | controllers/iamrecycler_controller.go:125-137 | Of two keys with distinct ids, the one kept is the younger, or the second listed on a tie. |
| ReconcileProperties.RotationKeepsAtMostTwoKeys | controllers/iamrecycler_controller.go:131-160 | Suppose the key ids are unique, the user holds at most two keys and the issued id is fresh. Then after the create the user holds at most two keys, exactly two if it held two before. The ids stay unique, and the key listed last is the one issued. |
| ReconcileProperties.IssuedKeyIsNewest | controllers/iamrecycler_controller.go:125-160 | Suppose the issued key is not older than any key the user holds, the ids are unique and the issued id is fresh. Then after the create no key is newer than the issued one, and with two keys before the rotation there are two after it and the next prune targets the kept key, not the one just published. When the issued key is strictly newer than every held key, the prune spares it whichever order the two keys are listed in. |
| ReconcileProperties.NewKeyIsNewest | controllers/iamrecycler_controller.go:131-160 | The pruned keys plus a fresh key dated no earlier than any listed key: no key is newer than the fresh one, and from two keys the result has two whose oldest is the kept key. When the fresh key is strictly newer, the kept key is the oldest in either order. |
| ReconcileProperties.OldestOfPair | controllers/iamrecycler_controller.go:125-134 | Of two listed keys the prune targets the second only when it was created strictly before the first, and otherwise the first. |
| ReconcileProperties.KeptPlusNewKey | controllers/iamrecycler_controller.go:131-160 | The pruned keys plus a fresh key number at most two, are two when there were two, keep unique ids and end with the fresh key. |
| ReconcileProperties.NextRunAnchoredAtStamp | controllers/iamrecycler_controller.go:176-186 | After a success, the next reconcile is due exactly when one interval has passed since `stampTime`. A reconcile at `stampTime` makes no call and waits the whole interval. |
| ReconcileProperties.LastRecycleTimeAdvances | controllers/iamrecycler_controller.go:176-182 | When the stamp is not earlier than the due check, a due reconcile whose list, delete, create, Secret update and status update all succeed sets `LastRecycleTime` to the stamp, which is strictly later than the previous one. |
| ReconcileProperties.ValidSpecNamesEveryCall | api/v1alpha1/iamrecycler_types.go:31-38 | With a validated Spec, every call names a non-empty Secret, user and data field. |
| ReconcileProperties.FirstRotationScenario | controllers/iamrecycler_controller.go:86-186 | Take policy `s1`/`AK`/`SK`/`svc-a`/60, never recycled, and one key `k1`. A reconcile five minutes later: makes no delete; creates `k2`; publishes it as `AK`/`SK`; stamps the status; and requeues after 60 minutes. |

## Left out

- Fetching the `IAMRecycler` itself (lines 77-82, with `IgnoreNotFound`): the model starts from a fetched object.
- Creating the AWS session and IAM client (lines 108-110): the IAM answers are inputs.
- The `awserr` branch of the error logging: both branches return the same error.
- All logging.
- The Kubernetes API server's merge of `StringData` into `Data` on update: the model records the string data the controller writes and leaves `Data` as fetched.
- Namespaces: the Secret is looked up in the reconcile request's namespace, and the model keys Secrets by name only.
- The pagination of `ListAccessKeys` (first page only, `IsTruncated` ignored): the listing input is the page as returned.
- RBAC markers, `SetupWithManager`, the scheme registration (`init`), `IAMRecyclerList`, `TypeMeta` and `ObjectMeta`: none of them take part in a reconcile.
- The `Clock` interface and `realClock`: the due-check time `now` and the stamp `stampTime` are parameters.
- `Controller.DueCheck`: the code reads `r.Now()` twice, for the comparison and for the delay. The model uses one reading, `now`, for both. So it does not capture a delay that is zero or negative because the clock moved between the two readings.
- `Api.RecycleInterval`: `time.Minute * time.Duration(Recycle)` can overflow the 64 bits of a Go `Duration` for very large `Recycle`. The model computes with unbounded integers.
- `metav1.Time` keeps only whole seconds when it is serialised: the model keeps `stampTime` at full precision.
- Concurrent reconciles of the same resource, and retries with back-off after an error: the controller-runtime work queue is not part of this model.
- `ReconcileProperties.RotationKeepsAtMostTwoKeys`: the issued key's creation date is a free input, so this lemma promises only that the issued key is listed last. That it is also the newest by date is proved in `IssuedKeyIsNewest`, which assumes that IAM dates a new key no earlier than the keys the user holds. Without that assumption the next prune can delete the key just published.
- The order of IAM's listing: the model appends a created key at the end of the user's keys, and the next `ListAccessKeys` returns them in that order. IAM does not promise any order, and the stable sort breaks date ties by listing order. So "listed last" in `RotationKeepsAtMostTwoKeys` and `KeptPlusNewKey`, and the tie case of `IssuedKeyIsNewest`, are facts about the model's sequence only. `IssuedKeyIsNewest` also states the order-independent conclusion for an issued key strictly newer than the held keys.
- `AccessKeys.SortStable`: Go's `sort.SliceStable` runs insertion sorts on blocks and then merges them in place. The model sorts by one insertion sort. It proves that the result is the only stable sorted order, so both algorithms give the same order, but the intermediate array states are not modelled.
