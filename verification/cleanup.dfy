/** The scheduled cleanup handler (`lambda_code/cleanup_function.py`): lists
    the upload bucket and deletes every object last modified more than thirty
    minutes before the moment it is examined. */
module CleanupFunction {
  import opened Seqs
  import opened Effects

  /** One entry of the listing: the object's key and its `LastModified`
      time, in microseconds since the epoch (UTC). */
  datatype S3Object = S3Object(key: string, lastModified: int)

  /** `timedelta(minutes=30)`, in microseconds. */
  const RetentionPeriod: int := 30 * 60 * 1000000
  const HandlerBody: string := "Cleanup successfully"

  /** The age test: strictly older than the retention period at `now`. */
  predicate IsStale(now: int, obj: S3Object)
  {
    now - obj.lastModified > RetentionPeriod
  }

  /** An object paired with the clock reading (microseconds, UTC) taken when it is examined. */
  predicate IsStaleArrival(examined: (S3Object, int))
  {
    IsStale(examined.1, examined.0)
  }

  /** The calls made for one examined object. */
  function ObjectStep(bucket: string): ((S3Object, int)) -> seq<Effect>
  {
    (examined: (S3Object, int)) =>
      if IsStale(examined.1, examined.0) then [Delete(bucket, examined.0.key)] else []
  }

  /** The deletes made for a listing; `clock[i]` is the clock reading taken
      when object `i` is examined. */
  function Deletions(bucket: string, contents: seq<S3Object>, clock: seq<int>): seq<Effect>
    requires |clock| == |contents|
  {
    LogOf(ObjectStep(bucket), Zip(contents, clock))
  }

  /** The handler. `listing` is the `Contents` of the listing response, None
      when the response has none (an empty bucket). */
  method LambdaHandler(bucket: string, listing: Option<seq<S3Object>>, clock: seq<int>)
    returns (response: Response, log: seq<Effect>)
    requires listing.Some? ==> |clock| == |listing.value|
    ensures listing.None? ==> log == [List(bucket)]
    ensures listing.Some? ==> log == [List(bucket)] + Deletions(bucket, listing.value, clock)
    ensures response == Response(200, HandlerBody)
  {
    log := [List(bucket)];
    if listing.Some? {
      var contents := listing.value;
      for i := 0 to |contents|
        invariant log == [List(bucket)] + Deletions(bucket, contents[..i], clock[..i])
      {
        var obj := contents[i];
        var objTime := obj.lastModified;
        if clock[i] - objTime > RetentionPeriod {
          log := log + [Delete(bucket, obj.key)];
        }
        DeletionsStep(bucket, contents, clock, i);
      }
      assert contents[..|contents|] == contents;
      assert clock[..|clock|] == clock;
    }
    response := Response(200, HandlerBody);
  }

  // ---------------------------------------------------------------------------
  // Where the bucket name comes from

  /** The variable the handler reads the bucket name from, as written. */
  const BucketVariableAsWritten: string := "uploaded-by-client"
  /** The variable the deployment sets for the cleanup function. */
  const BucketVariable: string := "BUCKET_NAME"

  /** The environment the deployment gives the cleanup function. */
  function DeployedEnvironment(bucketName: string): map<string, string>
  {
    map[BucketVariable := bucketName]
  }

  /** `os.environ[variable]`: the value, or the `KeyError` raised. */
  function Lookup(env: map<string, string>, variable: string): (r: Result<string>)
    ensures r.Success? <==> variable in env
    ensures r.Success? ==> r.value == env[variable]
  {
    if variable in env then Success(env[variable]) else Failure("KeyError: '" + variable + "'")
  }

  /** As written, the variable the handler reads is missing from the deployed
      environment whatever the bucket is called, so the lookup raises. */
  lemma AsWrittenLookupFails(bucketName: string)
    ensures BucketVariableAsWritten !in DeployedEnvironment(bucketName)
    ensures Lookup(DeployedEnvironment(bucketName), BucketVariableAsWritten)
         == Failure("KeyError: '" + BucketVariableAsWritten + "'")
  {
    assert BucketVariableAsWritten[0] != BucketVariable[0];
  }

  /** An invocation as written: the bucket name is read from
      `BucketVariableAsWritten`. Where that variable is missing, as in the
      deployed environment, it raises before listing or deleting anything. */
  method InvokeAsWritten(env: map<string, string>, listing: Option<seq<S3Object>>, clock: seq<int>)
    returns (outcome: Result<(Response, seq<Effect>)>)
    requires listing.Some? ==> |clock| == |listing.value|
    ensures outcome.Failure? <==> BucketVariableAsWritten !in env
    ensures outcome.Failure? ==> outcome.error == "KeyError: '" + BucketVariableAsWritten + "'"
    ensures outcome.Success? ==>
      var bucket := env[BucketVariableAsWritten];
      && outcome.value.0 == Response(200, HandlerBody)
      && outcome.value.1 == [List(bucket)] + (if listing.Some? then Deletions(bucket, listing.value, clock) else [])
  {
    var bucketName := Lookup(env, BucketVariableAsWritten);
    if bucketName.Failure? {
      return Failure(bucketName.error);
    }
    var response, log := LambdaHandler(bucketName.value, listing, clock);
    outcome := Success((response, log));
  }

  /** An invocation: the bucket name is read from `BucketVariable`; without it
      the invocation raises, and otherwise it runs the handler on that bucket. */
  method Invoke(env: map<string, string>, listing: Option<seq<S3Object>>, clock: seq<int>)
    returns (outcome: Result<(Response, seq<Effect>)>)
    requires listing.Some? ==> |clock| == |listing.value|
    ensures outcome.Failure? <==> BucketVariable !in env
    ensures outcome.Success? ==>
      var bucket := env[BucketVariable];
      && outcome.value.0 == Response(200, HandlerBody)
      && outcome.value.1 == [List(bucket)] + (if listing.Some? then Deletions(bucket, listing.value, clock) else [])
  {
    var bucketName := Lookup(env, BucketVariable);
    if bucketName.Failure? {
      return Failure(bucketName.error);
    }
    var response, log := LambdaHandler(bucketName.value, listing, clock);
    outcome := Success((response, log));
  }

  /** In the deployed environment the corrected lookup finds the bucket, and
      the invocation lists that bucket. */
  lemma DeployedLookupFindsBucket(bucketName: string)
    ensures Lookup(DeployedEnvironment(bucketName), BucketVariable) == Success(bucketName)
    ensures BucketVariable in DeployedEnvironment(bucketName)
  {
  }

  // ---------------------------------------------------------------------------
  // Properties

  /** Examining one more object adds that object's deletes, if any. */
  lemma DeletionsStep(bucket: string, contents: seq<S3Object>, clock: seq<int>, i: nat)
    requires |clock| == |contents| && i < |contents|
    ensures Deletions(bucket, contents[..i + 1], clock[..i + 1])
         == Deletions(bucket, contents[..i], clock[..i])
            + (if IsStale(clock[i], contents[i]) then [Delete(bucket, contents[i].key)] else [])
  {
    PrefixOfPrefix(contents, i);
    PrefixOfPrefix(clock, i);
    ZipPrefix(contents, clock, i);
    LogOfSnoc(ObjectStep(bucket), Zip(contents[..i], clock[..i]), (contents[i], clock[i]));
  }

  /** The keys of the stale objects, in listing order. */
  function StaleKeys(contents: seq<S3Object>, clock: seq<int>): seq<string>
    requires |clock| == |contents|
  {
    if |contents| == 0 then []
    else
      var n := |contents| - 1;
      StaleKeys(contents[..n], clock[..n]) + (if IsStale(clock[n], contents[n]) then [contents[n].key] else [])
  }

  function DeleteEach(bucket: string, keys: seq<string>): seq<Effect>
  {
    seq(|keys|, j requires 0 <= j < |keys| => Delete(bucket, keys[j]))
  }

  /** The deletes are exactly the stale objects' keys, in listing order, one
      delete each. */
  lemma {:induction false} DeletionsAreStaleKeys(bucket: string, contents: seq<S3Object>, clock: seq<int>)
    requires |clock| == |contents|
    ensures Deletions(bucket, contents, clock) == DeleteEach(bucket, StaleKeys(contents, clock))
  {
    if |contents| > 0 {
      var n := |contents| - 1;
      DeletionsAreStaleKeys(bucket, contents[..n], clock[..n]);
      var zipped := Zip(contents, clock);
      assert zipped[..n] == Zip(contents[..n], clock[..n]);
      var keys := StaleKeys(contents[..n], clock[..n]);
      var more := if IsStale(clock[n], contents[n]) then [contents[n].key] else [];
      assert DeleteEach(bucket, keys + more) == DeleteEach(bucket, keys) + DeleteEach(bucket, more);
    }
  }

  /** An object's key is deleted exactly when some listed object with that
      key was stale when examined. */
  lemma DeletedIff(bucket: string, contents: seq<S3Object>, clock: seq<int>, key: string)
    requires |clock| == |contents|
    ensures Delete(bucket, key) in Deletions(bucket, contents, clock) <==>
      exists i :: 0 <= i < |contents| && contents[i].key == key && IsStale(clock[i], contents[i])
  {
    var zipped := Zip(contents, clock);
    LogOfMembers(ObjectStep(bucket), zipped, Delete(bucket, key));
    if Delete(bucket, key) in Deletions(bucket, contents, clock) {
      var i :| 0 <= i < |zipped| && Delete(bucket, key) in ObjectStep(bucket)(zipped[i]);
      assert contents[i].key == key && IsStale(clock[i], contents[i]);
    }
    if exists i :: 0 <= i < |contents| && contents[i].key == key && IsStale(clock[i], contents[i]) {
      var i :| 0 <= i < |contents| && contents[i].key == key && IsStale(clock[i], contents[i]);
      assert Delete(bucket, key) in ObjectStep(bucket)(zipped[i]);
    }
  }

  /** Every call the loop makes is a delete in the listed bucket. */
  lemma OnlyDeletes(bucket: string, contents: seq<S3Object>, clock: seq<int>)
    requires |clock| == |contents|
    ensures forall e :: e in Deletions(bucket, contents, clock) ==> e.Delete? && e.bucket == bucket
  {
    DeletionsAreStaleKeys(bucket, contents, clock);
  }

  /** With N listed objects of which M are stale, exactly M deletes are made. */
  lemma DeleteCount(bucket: string, contents: seq<S3Object>, clock: seq<int>)
    requires |clock| == |contents|
    ensures |Deletions(bucket, contents, clock)| == CountWhere(IsStaleArrival, Zip(contents, clock))
    ensures |Deletions(bucket, contents, clock)| <= |contents|
  {
    var zipped := Zip(contents, clock);
    forall examined | examined in zipped
      ensures |ObjectStep(bucket)(examined)| == (if IsStaleArrival(examined) then 1 else 0)
    {
    }
    LogOfLength(ObjectStep(bucket), IsStaleArrival, zipped);
    CountWhereAtMost(IsStaleArrival, zipped);
  }

  lemma {:induction false} CountWhereAtMost<T>(p: T -> bool, xs: seq<T>)
    ensures CountWhere(p, xs) <= |xs|
  {
    if |xs| > 0 {
      CountWhereAtMost(p, xs[..|xs| - 1]);
    }
  }

  /** Deletes follow the listing order: the deletes for a listing split in two
      are those for the first part, then those for the second. */
  lemma DeletionsAppend(bucket: string, c1: seq<S3Object>, k1: seq<int>, c2: seq<S3Object>, k2: seq<int>)
    requires |k1| == |c1| && |k2| == |c2|
    ensures Deletions(bucket, c1 + c2, k1 + k2) == Deletions(bucket, c1, k1) + Deletions(bucket, c2, k2)
  {
    ZipAppend(c1, k1, c2, k2);
    LogOfAppend(ObjectStep(bucket), Zip(c1, k1), Zip(c2, k2));
  }

  /** The boundary is strict: an object exactly thirty minutes old is kept,
      one a microsecond older is deleted. */
  lemma RetentionBoundary(bucket: string, obj: S3Object)
    ensures ObjectStep(bucket)((obj, obj.lastModified + RetentionPeriod)) == []
    ensures ObjectStep(bucket)((obj, obj.lastModified + RetentionPeriod + 1)) == [Delete(bucket, obj.key)]
  {
  }
}
