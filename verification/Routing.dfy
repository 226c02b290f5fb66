/**
 Routing of ranged requests to cache hosts: DoRequest of ConsistentHashingMode with its one
 retry on another host.
 */
module Routing {
  import opened Wrappers
  import opened Ranges
  import opened Promise
  import opened Planner
  import opened Buckets

  /** How the HTTP client fares with a request: a reply, a fallback-class error, another error. */
  datatype Exchange = Replied(status: nat) | FailsOver | Fails(reason: string)

  /** The cache hosts of one URL. An empty host name is one that is not ready. `jump` is the
      jump hash of the URL, a slice number, the attempt number and the buckets left. */
  class Router {
    const hosts: seq<string>
    const sliceSize: nat
    const jump: (int, nat, nat) -> Option<nat>

    ghost predicate Valid() {
      && sliceSize > 0
      && forall slice: int, attempt: nat, n: nat :: n > 0 && jump(slice, attempt, n).Some? ==>
           jump(slice, attempt, n).value < n
    }

    constructor (hosts: seq<string>, sliceSize: nat, jump: (int, nat, nat) -> Option<nat>)
      requires sliceSize > 0
      requires forall slice: int, attempt: nat, n: nat :: n > 0 && jump(slice, attempt, n).Some? ==>
                 jump(slice, attempt, n).value < n
      ensures Valid() && this.hosts == hosts && this.sliceSize == sliceSize && this.jump == jump
    {
      this.hosts := hosts;
      this.sliceSize := sliceSize;
      this.jump := jump;
    }

    /** The bucket of an attempt on a slice, if there is one to be had. */
    function BucketFor(slice: int, prev: seq<int>): Option<int> {
      if |prev| < |hosts| && jump(slice, |prev|, |hosts| - |prev|).Some?
      then Some(Choose(jump(slice, |prev|, |hosts| - |prev|).value, prev))
      else None
    }

    lemma BucketInRange(slice: int, prev: seq<int>)
      requires Valid()
      ensures BucketFor(slice, prev).Some? ==>
                0 <= BucketFor(slice, prev).value < |hosts| && BucketFor(slice, prev).value !in prev
    {
      if BucketFor(slice, prev).Some? {
        ChooseSound(jump(slice, |prev|, |hosts| - |prev|).value, |hosts|, prev);
      }
    }

    /** The bucket is the one the hash of the slice says, counted among those not tried yet. */
    lemma BucketByRank(slice: int, prev: seq<int>)
      requires Valid() && Distinct(prev) && Within(prev, |hosts|) && BucketFor(slice, prev).Some?
      ensures Some(|LeftBelow(prev, BucketFor(slice, prev).value)|) == jump(slice, |prev|, |hosts| - |prev|)
    {
      ChosenByRank(jump(slice, |prev|, |hosts| - |prev|).value, |hosts|, prev);
    }

    /** The host of the first attempt and of the retry, by slice alone. */
    function Route(slice: int): (Option<int>, Option<int>) {
      var first := BucketFor(slice, []);
      (first, if first.Some? then BucketFor(slice, [first.value]) else None)
    }

    predicate InRange(bucket: Option<int>) {
      bucket.Some? ==> 0 <= bucket.value < |hosts|
    }

    predicate Ready(bucket: Option<int>) {
      bucket.Some? && 0 <= bucket.value < |hosts| && hosts[bucket.value] != ""
    }

    /** The buckets a request for this bucket is sent to: none if its host is not ready. */
    function AskedOf(bucket: Option<int>): seq<int> {
      if Ready(bucket) then [bucket.value] else []
    }

    lemma RouteInRange(slice: int)
      requires Valid()
      ensures var (first, second) := Route(slice);
              && InRange(first) && InRange(second)
              && (second.Some? ==> first.Some? && second.value != first.value)
    {
      BucketInRange(slice, []);
      if Route(slice).0.Some? {
        BucketInRange(slice, [Route(slice).0.value]);
      }
    }

    /** An attempt does not get a reply. */
    predicate Unanswered(bucket: Option<int>, x: Exchange) {
      !Ready(bucket) || !x.Replied?
    }

    /** An attempt fails in a way that allows the retry. */
    predicate FallbackClass(bucket: Option<int>, x: Exchange) {
      bucket.Some? && (!Ready(bucket) || x.FailsOver?)
    }

    /** The slice of a request, as Go's division of its start gives it. */
    function SliceOf(r: Range): int
      requires sliceSize > 0
    {
      TruncDiv(r.start, sliceSize)
    }

    /** The request is refused before a host is chosen. */
    predicate Straddles(r: Range)
      requires sliceSize > 0
    {
      TruncDiv(r.start, sliceSize) != TruncDiv(r.end, sliceSize)
    }

    /** For a range that starts in the file: its ends lie in different slices, or its end has
        overflowed and not both are less than a slice from zero. */
    lemma StraddlesIff(r: Range)
      requires sliceSize > 0 && 0 <= r.start
      ensures 0 <= r.end ==> (Straddles(r) <==> r.start / sliceSize != r.end / sliceSize)
      ensures r.end < 0 ==> (Straddles(r) <==> !(r.start < sliceSize && -r.end < sliceSize))
    {
      if r.end < 0 {
        DivBelow(-r.end, sliceSize);
        if r.start > 0 {
          DivBelow(r.start, sliceSize);
        } else {
          DivOfBounds(0, 0, sliceSize);
        }
      }
    }

    /** The first bucket: the jump value of the slice the range starts in. */
    function FirstBucket(r: Range): Option<int>
      requires sliceSize > 0
    {
      if |hosts| == 0 then None else jump(r.start / sliceSize, 0, |hosts|)
    }

    /** The retry bucket after bucket b: the jump value over one bucket less, stepping over b. */
    function RetryBucket(r: Range, b: int): Option<int>
      requires sliceSize > 0
    {
      if |hosts| <= 1 then None
      else
        match jump(r.start / sliceSize, 1, |hosts| - 1)
        case None => None
        case Some(k) => Some(StepOver(k, b))
    }

    lemma RouteIs(r: Range)
      requires Valid() && 0 <= r.start
      ensures var (first, second) := Route(SliceOf(r));
              && first == FirstBucket(r)
              && second == (if first.None? then None else RetryBucket(r, first.value))
    {
      var slice := SliceOf(r);
      var first := BucketFor(slice, []);
      if first.Some? {
        ChooseFew(jump(slice, 0, |hosts|).value, 0);
        if |hosts| > 1 && jump(slice, 1, |hosts| - 1).Some? {
          ChooseFew(jump(slice, 1, |hosts| - 1).value, first.value);
        }
      }
    }

    /** The buckets a request is sent to, if the first exchange goes like x. */
    function Asked(r: Range, x: Exchange): seq<int>
      requires sliceSize > 0
    {
      if Straddles(r) then []
      else
        var (first, second) := Route(SliceOf(r));
        AskedOf(first) + if FallbackClass(first, x) then AskedOf(second) else []
    }

    /** rewriteRequestToCacheHost: refuse a range that straddles, choose a bucket, and give up on it
        if its host is not ready. */
    method RewriteRequest(r: Range, previous: array<int>) returns (pod: int, err: Error)
      requires Valid()
      modifies previous
      ensures Straddles(r) ==> err.Failure?
      ensures !Straddles(r) ==>
                var b := BucketFor(SliceOf(r), old(previous[..]));
                && (b.None? ==> err.Failure?)
                && (b.Some? ==>
                    && pod == b.value && 0 <= pod < |hosts| && pod !in old(previous[..])
                    && err == if hosts[pod] == "" then Fallback else NoError)
      ensures 0 <= r.start && !Straddles(r) ==>
                var n, prev := previous.Length, old(previous[..]);
                && (err.Failure? <==> n >= |hosts| || jump(r.start / sliceSize, n, |hosts| - n).None?)
                && (!err.Failure? && Distinct(prev) && Within(prev, |hosts|) ==>
                      pod !in prev && jump(r.start / sliceSize, n, |hosts| - n) == Some(|LeftBelow(prev, pod)|))
    {
      if TruncDiv(r.start, sliceSize) != TruncDiv(r.end, sliceSize) {
        return 0, Failure("Internal error: can't make a range request across a slice boundary");
      }
      var slice := TruncDiv(r.start, sliceSize);
      var n := previous.Length;
      ghost var prev := previous[..];
      if Distinct(prev) && Within(prev, |hosts|) && BucketFor(slice, prev).Some? {
        BucketByRank(slice, prev);
      }
      var hash := if n < |hosts| then jump(slice, n, |hosts| - n) else None;
      pod, err := HashBucket(hash, |hosts|, previous);
      if err != NoError {
        return -1, err;
      }
      if hosts[pod] == "" {
        err := Fallback;
      }
    }

    /** doRequestToCacheHost: choose a host, and send to it if it is ready. `asked` is the bucket the
        request was sent to, if it was sent. */
    method DoRequestToCacheHost(r: Range, previous: array<int>, x: Exchange)
      returns (status: nat, pod: int, err: Error, asked: seq<int>)
      requires Valid()
      modifies previous
      ensures Straddles(r) ==> err.Failure? && asked == []
      ensures !Straddles(r) ==>
                var b := BucketFor(SliceOf(r), old(previous[..]));
                && (b.Some? ==> pod == b.value && 0 <= pod < |hosts| && pod !in old(previous[..]))
                && (b.None? ==> err.Failure? && asked == [])
                && (b.Some? && hosts[b.value] == "" ==> err == Fallback && asked == [])
                && (b.Some? && hosts[b.value] != "" ==>
                    && asked == [pod]
                    && match x
                       case Replied(st) => err == NoError && status == st
                       case FailsOver => err == Fallback
                       case Fails(_) => err.Failure?)
      ensures 0 <= r.start && !Straddles(r) ==>
                var n, prev := previous.Length, old(previous[..]);
                asked != [] && Distinct(prev) && Within(prev, |hosts|) ==>
                  && asked == [pod] && pod !in prev && n < |hosts|
                  && jump(r.start / sliceSize, n, |hosts| - n) == Some(|LeftBelow(prev, pod)|)
    {
      status, asked := 0, [];
      pod, err := RewriteRequest(r, previous);
      if err != NoError {
        return;
      }
      asked := [pod];
      match x
      case Replied(st) => status := st;
      case FailsOver => err := Fallback;
      case Fails(reason) => err := Failure(reason);
    }

    /** The second call of doRequestToCacheHost, with the first host excluded. */
    method Retry(r: Range, pod: int, y: Exchange) returns (status: nat, err: Error, asked: seq<int>)
      requires Valid() && !Straddles(r)
      ensures var b := BucketFor(SliceOf(r), [pod]);
              && (err == NoError <==> !Unanswered(b, y))
              && (err == NoError ==> status == y.status)
              && asked == AskedOf(b)
    {
      var previous := new int[1];
      previous[0] := pod;
      assert previous[..] == [pod];
      var second;
      status, second, err, asked := DoRequestToCacheHost(r, previous, y);
    }

    /** What DoRequest comes to, by the buckets of the slice. */
    ghost predicate Routed(r: Range, x: Exchange, y: Exchange, err: Error, asked: seq<int>)
      requires sliceSize > 0
    {
      && asked == Asked(r, x)
      && if Straddles(r) then err.Failure?
         else
           var (first, second) := Route(SliceOf(r));
           && (err == Fallback <==> FallbackClass(first, x) && Unanswered(second, y))
           && (err == NoError <==>
                 if FallbackClass(first, x) then !Unanswered(second, y) && 200 <= y.status < 300
                 else !Unanswered(first, x) && 200 <= x.status < 300)
           && (err == NoError || err == Fallback || err.Failure?)
    }

    /** The same by the hash and the host table alone: the first bucket is the jump value of the
        slice, and the jump value of the second attempt counts the other buckets. */
    ghost predicate Hashed(r: Range, x: Exchange, y: Exchange, err: Error, asked: seq<int>)
      requires Valid()
    {
      if |hosts| == 0 || jump(r.start / sliceSize, 0, |hosts|).None? then err.Failure? && asked == []
      else
        var b := jump(r.start / sliceSize, 0, |hosts|).value;
        var over := hosts[b] == "" || x.FailsOver?;
        var k := if over && |hosts| > 1 then jump(r.start / sliceSize, 1, |hosts| - 1) else None;
        var c := if k.None? then b else if k.value < b then k.value else k.value + 1;
        && asked == (if hosts[b] == "" then [] else [b]) + (if k.None? || hosts[c] == "" then [] else [c])
        && (err == Fallback <==> over && (k.None? || hosts[c] == "" || !y.Replied?))
        && (err == NoError <==>
              if over then k.Some? && hosts[c] != "" && y.Replied? && 200 <= y.status < 300
              else x.Replied? && 200 <= x.status < 300)
    }

    lemma RoutedByHash(r: Range, x: Exchange, y: Exchange, err: Error, asked: seq<int>)
      requires Valid() && Routed(r, x, y, err, asked) && 0 <= r.start && !Straddles(r)
      ensures Hashed(r, x, y, err, asked)
    {
      RouteIs(r);
    }

    /** DoRequest: one attempt, one retry on another host if that was fallback-class, then the
        status check. The fallback error comes out exactly when the first attempt was
        fallback-class and the retry failed. */
    method DoRequest(r: Range, x: Exchange, y: Exchange) returns (err: Error, asked: seq<int>)
      requires Valid()
      ensures Routed(r, x, y, err, asked)
      ensures 0 <= r.start && !Straddles(r) ==> Hashed(r, x, y, err, asked)
    {
      var status;
      status, err, asked := DoBoth(r, x, y);
      if err == NoError && (status < 200 || status >= 300) {
        err := Failure("unexpected http status");
      }
      if 0 <= r.start && !Straddles(r) {
        RoutedByHash(r, x, y, err, asked);
      }
    }

    /** DoRequest up to the status check. */
    method DoBoth(r: Range, x: Exchange, y: Exchange) returns (status: nat, err: Error, asked: seq<int>)
      requires Valid()
      ensures asked == Asked(r, x)
      ensures Straddles(r) ==> err.Failure?
      ensures !Straddles(r) ==>
                var (first, second) := Route(SliceOf(r));
                var over := FallbackClass(first, x);
                && (err == Fallback <==> over && Unanswered(second, y))
                && (err == NoError <==> if over then !Unanswered(second, y) else !Unanswered(first, x))
                && (err == NoError ==> status == if over then y.status else x.status)
      ensures err == NoError || err == Fallback || err.Failure?
    {
      RouteInRange(SliceOf(r));
      var none := new int[0];
      assert none[..] == [];
      var pod;
      status, pod, err, asked := DoRequestToCacheHost(r, none, x);
      if err != NoError {
        if err != Fallback {
          return status, Failure("error executing request"), asked;
        }
        var origErr := err;
        var again;
        status, err, again := Retry(r, pod, y);
        asked := asked + again;
        if err != NoError {
          return status, origErr, asked;
        }
      }
    }

    /** At most two different hosts are asked, all of them ready. */
    lemma AskedAtMostTwo(r: Range, x: Exchange)
      requires Valid()
      ensures var asked := Asked(r, x);
              && |asked| <= 2 && (|asked| == 2 ==> asked[0] != asked[1])
              && forall i :: 0 <= i < |asked| ==> 0 <= asked[i] < |hosts| && hosts[asked[i]] != ""
    {
      RouteInRange(SliceOf(r));
    }

    /** Every request of the sliced plan stays in its slice, so the internal error cannot occur,
        and bytes p and q of one slice are asked of the same hosts, whichever requests of the
        plan they are part of. */
    lemma SliceStaysTogether(fileSize: nat, chunk: nat, i: nat, j: nat, p: int, q: int, x: Exchange)
      requires Valid() && fileSize > 0 && 0 < chunk <= sliceSize
      requires i < |HashingRanges(fileSize, chunk, sliceSize)| && j < |HashingRanges(fileSize, chunk, sliceSize)|
      requires var rs := HashingRanges(fileSize, chunk, sliceSize);
               rs[i].start <= p <= rs[i].end && rs[j].start <= q <= rs[j].end
      ensures var rs := HashingRanges(fileSize, chunk, sliceSize);
              && !Straddles(rs[i]) && !Straddles(rs[j])
              && (p / sliceSize == q / sliceSize ==> Asked(rs[i], x) == Asked(rs[j], x))
    {
      var rs := HashingRanges(fileSize, chunk, sliceSize);
      SlicePlanShape(fileSize, chunk, sliceSize, i);
      SlicePlanShape(fileSize, chunk, sliceSize, j);
      DivBetween(rs[i].start, p, rs[i].end, sliceSize);
      DivBetween(rs[j].start, q, rs[j].end, sliceSize);
    }

    /** A request whose end overflowed to a negative number is caught by the straddle check, and no
        host is asked, unless it is one of the first slice and ends less than a slice below
        zero. */
    lemma {:induction false} OverflowCaughtIff(fileSize: nat, chunk: int, k: nat, i: nat, x: Exchange)
      requires Valid() && 0 < fileSize <= MAX_INT64 && 0 < chunk <= sliceSize <= MAX_INT64
      requires k < SliceCount(fileSize, sliceSize) && i < Pieces(SliceLength(fileSize, sliceSize, k), chunk)
      requires WrappedSlicedRange(chunk, sliceSize, k, i).end < 0
      ensures var r := WrappedSlicedRange(chunk, sliceSize, k, i);
              && (Straddles(r) <==> k > 0 || r.end + sliceSize <= 0)
              && (Straddles(r) ==> Asked(r, x) == [])
    {
      var r := WrappedSlicedRange(chunk, sliceSize, k, i);
      WrappedParts(fileSize, chunk, sliceSize, k, i);
      SlicedRangeFacts(fileSize, chunk, sliceSize, k, i);
      DivOfBounds(r.start, k, sliceSize);
      DivBelow(-r.end, sliceSize);
    }

    /** With slices of at most 2^62 bytes, the command line's 500 MiB among them, every overflowed
        request is caught. */
    lemma {:induction false} SmallSlicesCatchAll(fileSize: nat, chunk: int, k: nat, i: nat)
      requires Valid() && 0 < fileSize <= MAX_INT64 && 0 < chunk <= sliceSize && 2 * sliceSize <= TWO_TO_63
      requires k < SliceCount(fileSize, sliceSize) && i < Pieces(SliceLength(fileSize, sliceSize, k), chunk)
      requires WrappedSlicedRange(chunk, sliceSize, k, i).end < 0
      ensures Straddles(WrappedSlicedRange(chunk, sliceSize, k, i))
    {
      WrappedRangeIff(fileSize, chunk, sliceSize, k, i);
      SlicedRangeFacts(fileSize, chunk, sliceSize, k, i);
      OverflowCaughtIff(fileSize, chunk, k, i, FailsOver);
    }

    /** One slice of 2^63-1 bytes and chunks of 2^62+2: the second request of a file of that size
        wraps around to an end less than a slice below zero, passes the check and is sent. */
    lemma OverflowUncaught(x: Exchange)
      requires Valid() && sliceSize == MAX_INT64
      ensures var r := WrappedSlicedRange(TWO_TO_63 / 2 + 2, sliceSize, 0, 1);
              && 1 < Pieces(SliceLength(MAX_INT64, sliceSize, 0), TWO_TO_63 / 2 + 2)
              && r.end < 0 <= r.start && !Straddles(r)
              && Asked(r, x) == AskedOf(Route(0).0) + if FallbackClass(Route(0).0, x) then AskedOf(Route(0).1) else []
    {
      var chunk := TWO_TO_63 / 2 + 2;
      var r := WrappedSlicedRange(chunk, sliceSize, 0, 1);
      WrapOverflow(2 * chunk - 1);
      WrapTwice(2 * chunk, -1);
      assert r == Range(chunk, 2 * chunk - 1 - TWO_TO_64);
      DivOfBounds(r.start, 0, sliceSize);
      DivBelow(-r.end, sliceSize);
    }
  }

  /** Go's integer division, which truncates toward zero. */
  function TruncDiv(a: int, b: int): int
    requires b > 0
  {
    if a >= 0 then a / b else -(-a / b)
  }

  lemma DivBetween(a: int, b: int, c: int, s: int)
    requires s > 0 && a <= b <= c && a / s == c / s
    ensures b / s == a / s
  {
    var q := a / s;
    assert a == q * s + a % s && c == q * s + c % s;
    assert (q + 1) * s == q * s + s;
    DivOfBounds(b, q, s);
  }

  lemma DivBelow(a: int, s: int)
    requires s > 0 && a > 0
    ensures a / s >= 0 && (a / s == 0 <==> a < s)
  {
    if a < s {
      DivOfBounds(a, 0, s);
    } else {
      var q := a / s;
      assert a == q * s + a % s;
      if q <= 0 {
        MulMonotone(q, 0, s);
      }
    }
  }
}
