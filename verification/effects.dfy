/** The handlers' view of the cloud services they call. Every call a handler
    makes is recorded, in order, as an `Effect` in a log; what the services do
    with the call is outside the model. */
module Effects {
  import opened Seqs

  datatype Option<T> = None | Some(value: T)

  datatype Result<T> = Success(value: T) | Failure(error: string)

  /** One row of the metadata table: partition key `file_extension`, sort key
      `upload_date`, and the attributes `file_size` and `file_name`. */
  datatype Item = Item(fileExtension: string, uploadDate: string, fileSize: nat, fileName: string)

  datatype Effect =
    | Put(table: string, item: Item)                           // table.put_item
    | Publish(topic: string, subject: string, message: string) // sns.publish
    | Query(table: string, fileExtension: string)              // table.query on the partition key
    | List(bucket: string)                                     // s3.list_objects_v2
    | Delete(bucket: string, key: string)                      // s3.delete_object

  /** What a handler returns to its caller: `{"statusCode": ..., "body": ...}`. */
  datatype Response = Response(statusCode: int, body: string)

  function CountPuts(log: seq<Effect>): nat
  {
    if |log| == 0 then 0 else (if log[0].Put? then 1 else 0) + CountPuts(log[1..])
  }

  function CountPublishes(log: seq<Effect>): nat
  {
    if |log| == 0 then 0 else (if log[0].Publish? then 1 else 0) + CountPublishes(log[1..])
  }

  lemma CountsOfSingle(a: Effect)
    ensures CountPuts([a]) == (if a.Put? then 1 else 0)
    ensures CountPublishes([a]) == (if a.Publish? then 1 else 0)
  {
    assert [a][1..] == [];
  }

  lemma CountsOfPair(a: Effect, b: Effect)
    ensures CountPuts([a, b]) == (if a.Put? then 1 else 0) + (if b.Put? then 1 else 0)
    ensures CountPublishes([a, b]) == (if a.Publish? then 1 else 0) + (if b.Publish? then 1 else 0)
  {
    assert [a, b][1..] == [b];
    CountsOfSingle(b);
  }

  /** Counting distributes over concatenation of logs. */
  lemma {:induction false} CountsAppend(a: seq<Effect>, b: seq<Effect>)
    ensures CountPuts(a + b) == CountPuts(a) + CountPuts(b)
    ensures CountPublishes(a + b) == CountPublishes(a) + CountPublishes(b)
  {
    if |a| == 0 {
      assert a + b == b;
    } else {
      CountsAppend(a[1..], b);
      assert (a + b)[1..] == a[1..] + b;
    }
  }

  /** The log of a handler that walks `xs` in order, `step(x)` being the calls
      it makes for the element `x`. */
  function LogOf<T>(step: T -> seq<Effect>, xs: seq<T>): seq<Effect>
  {
    if |xs| == 0 then [] else LogOf(step, xs[..|xs| - 1]) + step(xs[|xs| - 1])
  }

  lemma LogOfSnoc<T>(step: T -> seq<Effect>, xs: seq<T>, x: T)
    ensures LogOf(step, xs + [x]) == LogOf(step, xs) + step(x)
  {
    InitOfSnoc(xs, x);
  }

  /** Walking `xs + ys` logs the calls for `xs`, then those for `ys`. */
  lemma {:induction false} LogOfAppend<T>(step: T -> seq<Effect>, xs: seq<T>, ys: seq<T>)
    ensures LogOf(step, xs + ys) == LogOf(step, xs) + LogOf(step, ys)
  {
    if |ys| == 0 {
      assert xs + ys == xs;
    } else {
      var n := |ys| - 1;
      LogOfAppend(step, xs, ys[..n]);
      InitOfAppend(xs, ys);
    }
  }

  /** When every element makes exactly one publish, and a table write exactly
      when it is `accepted`, the log holds one publish per element and one
      write per accepted element. */
  lemma {:induction false} LogOfCounts<T>(step: T -> seq<Effect>, accepted: T -> bool, xs: seq<T>)
    requires forall x :: x in xs ==> CountPublishes(step(x)) == 1
    requires forall x :: x in xs ==> CountPuts(step(x)) == (if accepted(x) then 1 else 0)
    ensures CountPublishes(LogOf(step, xs)) == |xs|
    ensures CountPuts(LogOf(step, xs)) == CountWhere(accepted, xs)
  {
    if |xs| > 0 {
      var n := |xs| - 1;
      assert forall x :: x in xs[..n] ==> x in xs;
      LogOfCounts(step, accepted, xs[..n]);
      CountsAppend(LogOf(step, xs[..n]), step(xs[n]));
    }
  }

  /** When every element makes one call if it is `chosen` and none otherwise,
      the log has one call per chosen element. */
  lemma {:induction false} LogOfLength<T>(step: T -> seq<Effect>, chosen: T -> bool, xs: seq<T>)
    requires forall x :: x in xs ==> |step(x)| == (if chosen(x) then 1 else 0)
    ensures |LogOf(step, xs)| == CountWhere(chosen, xs)
  {
    if |xs| > 0 {
      var n := |xs| - 1;
      assert forall x :: x in xs[..n] ==> x in xs;
      LogOfLength(step, chosen, xs[..n]);
    }
  }

  /** A property of logs that holds of the empty log, survives concatenation
      and holds of every element's calls holds of the whole log. */
  lemma {:induction false} LogOfKeeps<T>(step: T -> seq<Effect>, inv: seq<Effect> -> bool, xs: seq<T>)
    requires inv([])
    requires forall a, b :: inv(a) && inv(b) ==> inv(a + b)
    requires forall x :: x in xs ==> inv(step(x))
    ensures inv(LogOf(step, xs))
  {
    if |xs| > 0 {
      var n := |xs| - 1;
      assert forall x :: x in xs[..n] ==> x in xs;
      LogOfKeeps(step, inv, xs[..n]);
    }
  }

  /** A call is in the log exactly when some element makes it. */
  lemma {:induction false} LogOfMembers<T>(step: T -> seq<Effect>, xs: seq<T>, e: Effect)
    ensures e in LogOf(step, xs) <==> exists i :: 0 <= i < |xs| && e in step(xs[i])
  {
    if |xs| > 0 {
      var n := |xs| - 1;
      LogOfMembers(step, xs[..n], e);
      if e in LogOf(step, xs) && e !in step(xs[n]) {
        var i :| 0 <= i < n && e in step(xs[..n][i]);
        assert xs[..n][i] == xs[i];
      }
      if exists i :: 0 <= i < |xs| && e in step(xs[i]) {
        var i :| 0 <= i < |xs| && e in step(xs[i]);
        if i < n {
          assert xs[..n][i] == xs[i];
        }
      }
    }
  }

  /** Applies `f` to each element in order and collects the results, stopping
      at the first failure, as a loop that raises does. */
  function Collect<T, U>(f: T -> Result<U>, xs: seq<T>): (r: Result<seq<U>>)
    ensures r.Success? ==> |r.value| == |xs|
  {
    if |xs| == 0 then Success([])
    else
      match Collect(f, xs[..|xs| - 1])
      case Failure(e) => Failure(e)
      case Success(us) =>
        match f(xs[|xs| - 1])
        case Failure(e) => Failure(e)
        case Success(u) => Success(us + [u])
  }

  lemma CollectSnocSuccess<T, U>(f: T -> Result<U>, xs: seq<T>, us: seq<U>, x: T, u: U)
    requires Collect(f, xs) == Success(us) && f(x) == Success(u)
    ensures Collect(f, xs + [x]) == Success(us + [u])
  {
    InitOfSnoc(xs, x);
  }

  lemma CollectSnocFailure<T, U>(f: T -> Result<U>, xs: seq<T>, x: T, e: string)
    requires Collect(f, xs).Success? && f(x) == Failure(e)
    ensures Collect(f, xs + [x]) == Failure(e)
  {
    InitOfSnoc(xs, x);
  }

  /** Once an element fails, the elements after it change nothing. */
  lemma {:induction false} CollectFailureSticks<T, U>(f: T -> Result<U>, xs: seq<T>, more: seq<T>)
    requires Collect(f, xs).Failure?
    ensures Collect(f, xs + more) == Collect(f, xs)
    decreases |more|
  {
    if |more| == 0 {
      assert xs + more == xs;
    } else {
      var n := |more| - 1;
      CollectFailureSticks(f, xs, more[..n]);
      InitOfAppend(xs, more);
    }
  }

  /** Collecting succeeds exactly when every element succeeds, and then the
      collected values are the elements' values, position by position. */
  lemma {:induction false} CollectSucceedsIff<T, U>(f: T -> Result<U>, xs: seq<T>)
    ensures Collect(f, xs).Success? <==> forall i :: 0 <= i < |xs| ==> f(xs[i]).Success?
    ensures Collect(f, xs).Success? ==>
      forall i :: 0 <= i < |xs| ==> Collect(f, xs).value[i] == f(xs[i]).value
  {
    if |xs| > 0 {
      var n := |xs| - 1;
      CollectSucceedsIff(f, xs[..n]);
      assert forall i :: 0 <= i < n ==> xs[..n][i] == xs[i];
    }
  }

  /** The results for the first `i + 1` elements extend those for the first `i`. */
  lemma CollectPrefixStep<T, U>(f: T -> Result<U>, xs: seq<T>, i: nat, us: seq<U>, u: U)
    requires i < |xs| && Collect(f, xs[..i]) == Success(us) && f(xs[i]) == Success(u)
    ensures Collect(f, xs[..i + 1]) == Success(us + [u])
  {
    assert xs[..i + 1] == xs[..i] + [xs[i]];
    CollectSnocSuccess(f, xs[..i], us, xs[i], u);
  }

  /** The first element to fail decides the result. */
  lemma CollectFailsAt<T, U>(f: T -> Result<U>, xs: seq<T>, i: nat, e: string)
    requires i < |xs| && Collect(f, xs[..i]).Success? && f(xs[i]) == Failure(e)
    ensures Collect(f, xs) == Failure(e)
  {
    assert xs[..i + 1] == xs[..i] + [xs[i]];
    CollectSnocFailure(f, xs[..i], xs[i], e);
    CollectFailureSticks(f, xs[..i + 1], xs[i + 1..]);
    assert xs[..i + 1] + xs[i + 1..] == xs;
  }
}
