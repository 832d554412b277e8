/** The BucketPolicy external client of the storage controller: the four
    phases (Observe, Create, Update, Delete) the managed-resource reconciler
    calls, against the bucket IAM policies held by the storage service.

    The storage service is modelled by the class BucketsService: the policy of
    every existing bucket, whether reads and writes currently fail, and the
    log of every request sent to it. IsEmpty, IsUpToDate and
    GenerateBucketPolicyInstance of the bucketpolicy package are not part of
    this model; they are fields of BucketPolicyExternal of function type, so
    everything proved here holds whatever they compute. */
module StorageController {
  import BP = BucketPolicy

  /** The policy format requested on every read; version 3 is the one that
      allows conditional role bindings. */
  const PolicyVersion: int := 3

  datatype Option<T> = None | Some(value: T)

  /** The forProvider parameters of a BucketPolicy: the bucket (a reference that
      may be nil) and the declared bindings, which only the abstract
      collaborators interpret. */
  datatype BucketPolicyParameters = BucketPolicyParameters(bucket: Option<string>, declared: seq<BP.Binding>)

  /** The managed resource handed to every phase: a BucketPolicy, or any other
      kind of managed resource. */
  datatype Managed = BucketPolicy(forProvider: BucketPolicyParameters) | OtherManaged

  /** The value of a nil-able string, the empty string for nil. */
  function StringValue(s: Option<string>): string
  {
    match s
    case Some(v) => v
    case None => ""
  }

  /** What a read of a bucket's IAM policy returns. */
  datatype Fetched = Found(policy: BP.PolicyDoc) | NotFound | Unavailable

  /** A request sent to the storage service. */
  datatype Call =
    | GetIamPolicy(bucket: string, requestedVersion: int)
    | SetIamPolicy(bucket: string, policy: BP.PolicyDoc)

  /** What IsUpToDate returns: a verdict, or an error. */
  datatype UpToDate = Checked(upToDate: bool) | CheckFailed

  /** The errors the phases return, one per error message of the controller;
      GetPolicy records whether the failed read was a not-found. */
  datatype Error = NotBucketPolicy | GetPolicy(notFound: bool) | CheckUpToDate | SetPolicy

  /** The fields of managed.ExternalObservation this controller sets. */
  datatype Observation = Observation(resourceExists: bool, resourceUpToDate: bool)

  /** `managed.ExternalObservation{}`. */
  const NoObservation := Observation(false, false)

  /** The storage service's bucket IAM policies. */
  class BucketsService {
    /** The IAM policy of every existing bucket. */
    var policies: map<string, BP.PolicyDoc>
    /** Every read fails with a transport error. */
    var readsFail: bool
    /** Every write fails with a transport error. */
    var writesFail: bool
    /** Every request sent, in order. */
    var calls: seq<Call>

    constructor (policies: map<string, BP.PolicyDoc>, readsFail: bool, writesFail: bool)
      ensures this.policies == policies && this.readsFail == readsFail && this.writesFail == writesFail
      ensures calls == []
    {
      this.policies := policies;
      this.readsFail := readsFail;
      this.writesFail := writesFail;
      calls := [];
    }

    /** What a read of the bucket's policy returns now. */
    function Lookup(bucket: string): Fetched
      reads this
    {
      if readsFail then Unavailable
      else if bucket !in policies then NotFound
      else Found(policies[bucket])
    }

    /** A write of the bucket's policy goes through now. */
    predicate Accepts(bucket: string)
      reads this
    {
      !writesFail && bucket in policies
    }

    /** Reads the bucket's policy; nothing but the log changes. */
    method GetIamPolicyOf(bucket: string, requestedVersion: int) returns (r: Fetched)
      modifies this`calls
      ensures calls == old(calls) + [GetIamPolicy(bucket, requestedVersion)]
      ensures r == Lookup(bucket)
    {
      calls := calls + [GetIamPolicy(bucket, requestedVersion)];
      r := Lookup(bucket);
    }

    /** Replaces the bucket's whole policy with `policy`, if the write goes
        through; reports whether it did. */
    method SetIamPolicyOf(bucket: string, policy: BP.PolicyDoc) returns (ok: bool)
      modifies this`calls, this`policies
      ensures calls == old(calls) + [SetIamPolicy(bucket, policy)]
      ensures ok == old(Accepts(bucket))
      ensures policies == if ok then old(policies)[bucket := policy] else old(policies)
    {
      calls := calls + [SetIamPolicy(bucket, policy)];
      ok := Accepts(bucket);
      if ok {
        policies := policies[bucket := policy];
      }
    }
  }

  /** What Observe reports once the read has returned `fetched`. */
  function Observed(
    fetched: Fetched,
    forProvider: BucketPolicyParameters,
    isEmpty: BP.PolicyDoc -> bool,
    isUpToDate: (BucketPolicyParameters, BP.PolicyDoc) -> UpToDate): (r: (Observation, Option<Error>))
    ensures r.1.Some? ==> r.0 == NoObservation
    ensures r.0.resourceExists <==>
      fetched.Found? && !isEmpty(fetched.policy) && isUpToDate(forProvider, fetched.policy).Checked?
    ensures r.0.resourceUpToDate <==>
      fetched.Found? && !isEmpty(fetched.policy) && isUpToDate(forProvider, fetched.policy) == Checked(true)
    ensures r.1 == Some(GetPolicy(false)) <==> fetched.Unavailable?
    ensures r.1 == Some(CheckUpToDate) <==>
      fetched.Found? && !isEmpty(fetched.policy) && isUpToDate(forProvider, fetched.policy).CheckFailed?
    ensures r.1 == None || r.1 == Some(GetPolicy(false)) || r.1 == Some(CheckUpToDate)
  {
    match fetched
    case NotFound => (NoObservation, None)
    case Unavailable => (NoObservation, Some(GetPolicy(false)))
    case Found(policy) =>
      if isEmpty(policy) then (NoObservation, None)
      else match isUpToDate(forProvider, policy)
        case CheckFailed => (NoObservation, Some(CheckUpToDate))
        case Checked(upToDate) => (Observation(true, upToDate), None)
  }

  /** What Update does once its own read has returned `fetched`: fail, leave
      the policy alone, or write a new one. */
  datatype Decision = Fail(error: Error) | Skip | Write(policy: BP.PolicyDoc)

  function UpdateDecision(
    fetched: Fetched,
    forProvider: BucketPolicyParameters,
    isUpToDate: (BucketPolicyParameters, BP.PolicyDoc) -> UpToDate,
    generate: (BucketPolicyParameters, BP.PolicyDoc) -> BP.PolicyDoc): (r: Decision)
    ensures r.Fail? <==> !fetched.Found? || isUpToDate(forProvider, fetched.policy).CheckFailed?
    ensures !fetched.Found? ==> r == Fail(GetPolicy(fetched.NotFound?))
    ensures fetched.Found? && r.Fail? ==> r.error == CheckUpToDate
    ensures r.Write? <==> fetched.Found? && isUpToDate(forProvider, fetched.policy) == Checked(false)
    ensures r.Write? ==> r.policy == generate(forProvider, fetched.policy)
  {
    match fetched
    case NotFound => Fail(GetPolicy(true))
    case Unavailable => Fail(GetPolicy(false))
    case Found(policy) =>
      match isUpToDate(forProvider, policy)
      case CheckFailed => Fail(CheckUpToDate)
      case Checked(upToDate) => if upToDate then Skip else Write(generate(forProvider, policy))
  }

  /** bucketPolicyExternal: the client the reconciler drives. */
  class BucketPolicyExternal {
    const client: BucketsService
    /** bucketpolicy.IsEmpty */
    const isEmpty: BP.PolicyDoc -> bool
    /** bucketpolicy.IsUpToDate */
    const isUpToDate: (BucketPolicyParameters, BP.PolicyDoc) -> UpToDate
    /** bucketpolicy.GenerateBucketPolicyInstance, as the policy it leaves behind */
    const generate: (BucketPolicyParameters, BP.PolicyDoc) -> BP.PolicyDoc

    constructor (
      client: BucketsService,
      isEmpty: BP.PolicyDoc -> bool,
      isUpToDate: (BucketPolicyParameters, BP.PolicyDoc) -> UpToDate,
      generate: (BucketPolicyParameters, BP.PolicyDoc) -> BP.PolicyDoc)
      ensures this.client == client && this.isEmpty == isEmpty
      ensures this.isUpToDate == isUpToDate && this.generate == generate
    {
      this.client := client;
      this.isEmpty := isEmpty;
      this.isUpToDate := isUpToDate;
      this.generate := generate;
    }

    /** Reads the bucket's policy and classifies it as absent, empty, up to
        date or stale. Never writes. */
    method Observe(mg: Managed) returns (obs: Observation, err: Option<Error>)
      modifies client`calls
      ensures client.policies == old(client.policies)
      ensures !mg.BucketPolicy? ==>
        obs == NoObservation && err == Some(NotBucketPolicy) && client.calls == old(client.calls)
      ensures mg.BucketPolicy? ==>
        var bucket := StringValue(mg.forProvider.bucket);
        && client.calls == old(client.calls) + [GetIamPolicy(bucket, PolicyVersion)]
        && (obs, err) == Observed(old(client.Lookup(bucket)), mg.forProvider, isEmpty, isUpToDate)
    {
      if !mg.BucketPolicy? {
        return NoObservation, Some(NotBucketPolicy);
      }
      var cr := mg.forProvider;
      var instance := client.GetIamPolicyOf(StringValue(cr.bucket), PolicyVersion);
      match instance {
        case NotFound =>
          return NoObservation, None;
        case Unavailable =>
          return NoObservation, Some(GetPolicy(false));
        case Found(policy) =>
          if isEmpty(policy) {
            return NoObservation, None;
          }
          var upToDate := isUpToDate(cr, policy);
          if upToDate.CheckFailed? {
            return NoObservation, Some(CheckUpToDate);
          }
          return Observation(true, upToDate.upToDate), None;
      }
    }

    /** Writes a policy generated from an empty one, in a single attempt. */
    method Create(mg: Managed) returns (err: Option<Error>)
      modifies client`calls, client`policies
      ensures !mg.BucketPolicy? ==>
        err == Some(NotBucketPolicy) && client.calls == old(client.calls) && client.policies == old(client.policies)
      ensures mg.BucketPolicy? ==>
        var bucket := StringValue(mg.forProvider.bucket);
        var instance := generate(mg.forProvider, BP.EmptyPolicy);
        && client.calls == old(client.calls) + [SetIamPolicy(bucket, instance)]
        && (err == None <==> old(client.Accepts(bucket)))
        && (err == None || err == Some(SetPolicy))
        && client.policies == if err == None then old(client.policies)[bucket := instance] else old(client.policies)
    {
      if !mg.BucketPolicy? {
        return Some(NotBucketPolicy);
      }
      var cr := mg.forProvider;
      var instance := generate(cr, BP.EmptyPolicy);
      var ok := client.SetIamPolicyOf(StringValue(cr.bucket), instance);
      if !ok {
        return Some(SetPolicy);
      }
      return None;
    }

    /** Reads the bucket's policy again and, only when it is stale, writes
        the generated policy back over it. */
    method Update(mg: Managed) returns (err: Option<Error>)
      modifies client`calls, client`policies
      ensures !mg.BucketPolicy? ==>
        err == Some(NotBucketPolicy) && client.calls == old(client.calls) && client.policies == old(client.policies)
      ensures mg.BucketPolicy? ==>
        var bucket := StringValue(mg.forProvider.bucket);
        var decision := UpdateDecision(old(client.Lookup(bucket)), mg.forProvider, isUpToDate, generate);
        && (decision.Fail? ==> err == Some(decision.error))
        && (decision.Skip? ==> err == None)
        && (!decision.Write? ==>
              client.calls == old(client.calls) + [GetIamPolicy(bucket, PolicyVersion)]
              && client.policies == old(client.policies))
        && (decision.Write? ==>
              && client.calls == old(client.calls) + [GetIamPolicy(bucket, PolicyVersion), SetIamPolicy(bucket, decision.policy)]
              && (err == None <==> old(client.Accepts(bucket)))
              && (err == None || err == Some(SetPolicy))
              && client.policies == if err == None then old(client.policies)[bucket := decision.policy] else old(client.policies))
    {
      if !mg.BucketPolicy? {
        return Some(NotBucketPolicy);
      }
      var cr := mg.forProvider;
      var bucket := StringValue(cr.bucket);
      var instance := client.GetIamPolicyOf(bucket, PolicyVersion);
      if !instance.Found? {
        return Some(GetPolicy(instance.NotFound?));
      }
      var u := isUpToDate(cr, instance.policy);
      if u.CheckFailed? {
        return Some(CheckUpToDate);
      }
      if u.upToDate {
        return None;
      }
      var generated := generate(cr, instance.policy);
      var ok := client.SetIamPolicyOf(bucket, generated);
      if !ok {
        return Some(SetPolicy);
      }
      return None;
    }

    /** Replaces the bucket's whole policy with an empty one, whatever it held. */
    method Delete(mg: Managed) returns (err: Option<Error>)
      modifies client`calls, client`policies
      ensures !mg.BucketPolicy? ==>
        err == Some(NotBucketPolicy) && client.calls == old(client.calls) && client.policies == old(client.policies)
      ensures mg.BucketPolicy? ==>
        var bucket := StringValue(mg.forProvider.bucket);
        && client.calls == old(client.calls) + [SetIamPolicy(bucket, BP.EmptyPolicy)]
        && (err == None <==> old(client.Accepts(bucket)))
        && (err == None || err == Some(SetPolicy))
        && client.policies == if err == None then old(client.policies)[bucket := BP.EmptyPolicy] else old(client.policies)
    {
      if !mg.BucketPolicy? {
        return Some(NotBucketPolicy);
      }
      var ok := client.SetIamPolicyOf(StringValue(mg.forProvider.bucket), BP.EmptyPolicy);
      if !ok {
        return Some(SetPolicy);
      }
      return None;
    }

    /** Delete followed by Observe, as the reconciler runs them when a
        BucketPolicy goes away: once the empty policy has been written, the
        resource reads as absent, provided the service accepts the write and
        answers the read and IsEmpty holds of the empty policy. */
    method DeleteThenObserve(mg: Managed) returns (obs: Observation, err: Option<Error>)
      requires mg.BucketPolicy?
      requires !client.readsFail && !client.writesFail
      requires StringValue(mg.forProvider.bucket) in client.policies
      requires isEmpty(BP.EmptyPolicy)
      modifies client`calls, client`policies
      ensures obs == NoObservation && err == None
      ensures client.policies == old(client.policies)[StringValue(mg.forProvider.bucket) := BP.EmptyPolicy]
    {
      var deleted := Delete(mg);
      obs, err := Observe(mg);
    }
  }

  // ---------------------------------------------------------------------------
  // How the phases relate

  /** On a non-empty policy, Update's own check agrees with Observe's: Observe
      reports the policy up to date exactly when Update leaves it alone, and
      stale exactly when Update writes. */
  lemma ObserveAgreesWithUpdate(
    policy: BP.PolicyDoc,
    forProvider: BucketPolicyParameters,
    isEmpty: BP.PolicyDoc -> bool,
    isUpToDate: (BucketPolicyParameters, BP.PolicyDoc) -> UpToDate,
    generate: (BucketPolicyParameters, BP.PolicyDoc) -> BP.PolicyDoc)
    requires !isEmpty(policy)
    ensures var (obs, err) := Observed(Found(policy), forProvider, isEmpty, isUpToDate);
      var decision := UpdateDecision(Found(policy), forProvider, isUpToDate, generate);
      && (obs == Observation(true, true) && err == None <==> decision == Skip)
      && (obs == Observation(true, false) && err == None <==> decision.Write?)
      && (err.Some? <==> decision.Fail?)
  {
  }

  /** A bucket that does not exist is no error for Observe but is one for
      Update, which does not filter not-found. */
  lemma NotFoundObserveVersusUpdate(
    forProvider: BucketPolicyParameters,
    isEmpty: BP.PolicyDoc -> bool,
    isUpToDate: (BucketPolicyParameters, BP.PolicyDoc) -> UpToDate,
    generate: (BucketPolicyParameters, BP.PolicyDoc) -> BP.PolicyDoc)
    ensures Observed(NotFound, forProvider, isEmpty, isUpToDate) == (NoObservation, None)
    ensures UpdateDecision(NotFound, forProvider, isUpToDate, generate) == Fail(GetPolicy(true))
  {
  }

  /** Observe does not consult IsUpToDate on an empty policy: its report is
      the same whatever IsUpToDate would say. */
  lemma ObserveEmptyIgnoresCheck(
    policy: BP.PolicyDoc,
    forProvider: BucketPolicyParameters,
    isEmpty: BP.PolicyDoc -> bool,
    check1: (BucketPolicyParameters, BP.PolicyDoc) -> UpToDate,
    check2: (BucketPolicyParameters, BP.PolicyDoc) -> UpToDate)
    requires isEmpty(policy)
    ensures Observed(Found(policy), forProvider, isEmpty, check1) == (NoObservation, None)
    ensures Observed(Found(policy), forProvider, isEmpty, check1) == Observed(Found(policy), forProvider, isEmpty, check2)
  {
  }
}
