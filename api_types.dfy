/**
 * The IAMRecycler custom resource (group aws.furio.me, version v1alpha1):
 * its desired state (Spec), its observed state (Status) and the bounds that
 * the kubebuilder validation markers put on the Spec fields. The API server
 * enforces those bounds before the controller ever sees an object, so the
 * controller may assume ValidSpec.
 */
module Api {

  datatype Option<+T> = None | Some(value: T)

  /** One minute as a Go time.Duration (nanoseconds). All times in the model are nanoseconds. */
  const Minute: int := 60_000_000_000

  /** The kubebuilder Minimum marker on Recycle. */
  const MinRecycleMinutes: int := 60

  /**
   * secret: name of the target Secret; dataKeyAccesskey / dataKeySecretkey: the two
   * Secret fields that receive the new key; iamUser: the IAM user whose key rotates;
   * recycle: the rotation interval, in minutes.
   */
  datatype IAMRecyclerSpec = IAMRecyclerSpec(
    secret: string,
    dataKeyAccesskey: string,
    dataKeySecretkey: string,
    iamUser: string,
    recycle: int)

  /** lastRecycleTime is optional: None means the key has never been recycled (the initial state). */
  datatype IAMRecyclerStatus = IAMRecyclerStatus(lastRecycleTime: Option<int>)

  datatype IAMRecycler = IAMRecycler(spec: IAMRecyclerSpec, status: IAMRecyclerStatus)

  /** The MinLength=1 markers on the four names and the Minimum=60 marker on Recycle. */
  predicate ValidSpec(spec: IAMRecyclerSpec) {
    && |spec.secret| >= 1
    && |spec.dataKeyAccesskey| >= 1
    && |spec.dataKeySecretkey| >= 1
    && |spec.iamUser| >= 1
    && spec.recycle >= MinRecycleMinutes
  }

  /** The status of an IAMRecycler that has never been recycled. */
  const InitialStatus: IAMRecyclerStatus := IAMRecyclerStatus(None)

  /**
   * time.Minute * time.Duration(Recycle): the gap between two rotations, used both for
   * the next due time and for the requeue delay after a rotation.
   */
  function RecycleInterval(spec: IAMRecyclerSpec): (d: int)
    ensures ValidSpec(spec) ==> d >= MinRecycleMinutes * Minute > 0
    ensures d % Minute == 0
  {
    Minute * spec.recycle
  }
}
