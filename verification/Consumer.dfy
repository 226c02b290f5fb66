/**
 The consuming side: io.Copy over io.MultiReader over delivered promises, and the two consumers
 that accept a download on its byte count.
 */
module Consumer {
  import opened Wrappers
  import opened Ranges
  import opened Promise

  /** io.Copy over io.MultiReader: error-free chunks are copied, a chunk delivered with EOF is
      passed over with all its bytes, and any other error ends the copy. */
  function Copied(ds: seq<Outcome>): (seq<byte>, Error) {
    if ds == [] then ([], NoError)
    else if ds[0].err == NoError then
      var (rest, err) := Copied(ds[1..]);
      (ds[0].bytes + rest, err)
    else if ds[0].err == Eof then Copied(ds[1..])
    else ([], ds[0].err)
  }

  lemma CopiedOne(d: Outcome)
    ensures Copied([d]) == (if d.err == NoError then d.bytes else [],
                            if d.err == Eof then NoError else d.err)
  {
    assert [d][1..] == [];
    assert Copied([]) == ([], NoError);
    assert d.bytes + [] == d.bytes;
  }

  const WRITE_ERROR := "write error"

  /** A destination takes n bytes before a write to it fails. */
  predicate Takes(limit: Option<nat>, n: nat) {
    limit.None? || n <= limit.value
  }

  /** io.Copy to a destination that takes so many bytes: a failing write ends it. */
  function Written(ds: seq<Outcome>, limit: Option<nat>): (seq<byte>, Error) {
    var (out, err) := Copied(ds);
    if Takes(limit, |out|) then (out, err) else (out[..limit.value], Failure(WRITE_ERROR))
  }

  /** io.Copy of one promise through a buffer of the given room. */
  method CopyOne(r: ReaderPromise, room: nat, limit: Option<nat>) returns (out: seq<byte>, err: Error)
    requires Fresh(r) && room >= 1
    modifies r
    ensures r.Valid() && r.backing == old(r.backing) && r.backing[..] == old(r.backing[..])
    ensures (out, err) == Written([old(Carries(r))], limit)
    ensures r.finished <==> old(r.err) == NoError && Takes(limit, old(r.size))
  {
    var p := new byte[room];
    out := [];
    err := NoError;
    ghost var bytes := Carries(r).bytes;
    CopiedOne(Carries(r));
    while err == NoError
      invariant r.Valid() && r.ready && r.backing == old(r.backing) && r.size == old(r.size)
      invariant r.backing != p && r.backing[..] == old(r.backing[..])
      invariant Takes(limit, |out|)
      invariant err == NoError ==> !r.finished && r.err == old(r.err) && out == bytes[..r.pos]
      invariant err == NoError && r.err != NoError ==> out == []
      invariant err != NoError && old(r.err) == NoError ==>
                  err == Eof && r.finished && out == bytes
      invariant err != NoError && old(r.err) != NoError ==>
                  err == old(r.err) && !r.finished && out == []
      decreases r.size - r.pos, if err == NoError then 1 else 0
    {
      var n;
      n, err := r.Read(p);
      out := out + p[..n];
      if !Takes(limit, |out|) {
        assert out == bytes[..r.pos];
        assert bytes[..r.pos][..limit.value] == bytes[..limit.value];
        return out[..limit.value], Failure(WRITE_ERROR);
      }
    }
    if err == Eof {
      err := NoError;
    }
  }

  /** Copying one more chunk, once the chunks before it went through. */
  lemma {:induction false} CopiedAppend(ds: seq<Outcome>, d: Outcome)
    ensures var (out, err) := Copied(ds);
            var (more, last) := Copied([d]);
            Copied(ds + [d]) == if err == NoError then (out + more, last) else (out, err)
  {
    if ds == [] {
      assert ds + [d] == [d];
      assert [] + Copied([d]).0 == Copied([d]).0;
    } else {
      assert (ds + [d])[1..] == ds[1..] + [d];
      CopiedAppend(ds[1..], d);
      var a, b, c := ds[0].bytes, Copied(ds[1..]).0, Copied([d]).0;
      assert a + (b + c) == (a + b) + c;
    }
  }

  /** An error that ends the copy hides everything after it. */
  lemma {:induction false} CopiedStops(ds: seq<Outcome>, more: seq<Outcome>)
    requires Copied(ds).1 != NoError
    ensures Copied(ds + more) == Copied(ds)
  {
    assert (ds + more)[1..] == ds[1..] + more;
    if ds[0].err == NoError || ds[0].err == Eof {
      CopiedStops(ds[1..], more);
    }
  }

  /** The readers are delivered, unread and different, and carry ds. */
  ghost predicate Carry(readers: seq<ReaderPromise>, ds: seq<Outcome>)
    reads readers, set r | r in readers && r.backing != null :: r.backing
  {
    && |ds| == |readers|
    && (forall i :: 0 <= i < |readers| ==> Fresh(readers[i]) && Carries(readers[i]) == ds[i])
    && Distinct(readers)
  }

  ghost predicate Distinct(readers: seq<ReaderPromise>) {
    forall i, j :: 0 <= i < j < |readers| ==> readers[i] != readers[j]
  }

  /** What the first chunks give is the beginning of what all of them give. */
  lemma {:induction false} CopiedPrefix(ds: seq<Outcome>, more: seq<Outcome>)
    ensures Copied(ds).0 <= Copied(ds + more).0
  {
    if ds != [] {
      assert (ds + more)[1..] == ds[1..] + more;
      CopiedPrefix(ds[1..], more);
    }
  }

  /** A write that fails on the way fails the whole copy, with the bytes up to it written. */
  lemma WriteFails(ds: seq<Outcome>, i: nat, limit: nat)
    requires i <= |ds| && |Copied(ds[..i]).0| > limit
    ensures Written(ds, Some(limit)) == (Copied(ds[..i]).0[..limit], Failure(WRITE_ERROR))
  {
    assert ds[..i] + ds[i..] == ds;
    CopiedPrefix(ds[..i], ds[i..]);
    assert Copied(ds).0[..limit] == Copied(ds[..i]).0[..limit];
  }

  /** A destination that takes n bytes gets the copy up to n bytes, and a write to it fails exactly
      when there are more. */
  lemma {:induction false} WrittenUpTo(ds: seq<Outcome>, n: nat)
    ensures Written(ds, None) == Copied(ds)
    ensures |Copied(ds).0| <= n ==> Written(ds, Some(n)) == Copied(ds)
    ensures |Copied(ds).0| > n ==> Written(ds, Some(n)) == (Copied(ds).0[..n], Failure(WRITE_ERROR))
  {
  }

  function Left(limit: Option<nat>, n: nat): Option<nat>
    requires Takes(limit, n)
  {
    if limit.None? then None else Some(limit.value - n)
  }

  /** io.Copy of a whole MultiReader. */
  method CopyAll(readers: seq<ReaderPromise>, room: nat, limit: Option<nat>, ghost ds: seq<Outcome>)
    returns (out: seq<byte>, err: Error)
    requires Carry(readers, ds) && room >= 1
    modifies readers
    ensures (out, err) == Written(ds, limit)
  {
    out, err := [], NoError;
    var i := 0;
    while i < |readers|
      invariant 0 <= i <= |readers|
      invariant err == NoError && (out, err) == Copied(ds[..i]) && Takes(limit, |out|)
      invariant forall j :: i <= j < |readers| ==> Fresh(readers[j]) && Carries(readers[j]) == ds[j]
    {
      var more;
      more, err := CopyOne(readers[i], room, Left(limit, |out|));
      CopiedAppend(ds[..i], ds[i]);
      assert ds[..i] + [ds[i]] == ds[..i + 1];
      out := out + more;
      i := i + 1;
      if err != NoError {
        if !Takes(limit, |Copied(ds[..i]).0|) {
          WriteFails(ds, i, limit.value);
          assert out == Copied(ds[..i]).0[..limit.value];
        } else {
          CopiedStops(ds[..i], ds[i..]);
          assert ds[..i] + ds[i..] == ds;
        }
        return;
      }
    }
    assert ds[..i] == ds;
  }

  /** FileWriter takes a download whose copy had no error and the expected length. */
  predicate FileAccepts(ds: seq<Outcome>, expectedBytes: int) {
    Copied(ds).1 == NoError && |Copied(ds).0| == expectedBytes
  }

  /** NullWriter takes a download whose copy had the expected length, whatever its error. */
  predicate NullAccepts(ds: seq<Outcome>, expectedBytes: int) {
    |Copied(ds).0| == expectedBytes
  }

  /** A destination: whether its directory and file can be opened, how many bytes it takes before
      a write fails, and what is in the file. */
  class Disk {
    const opens: bool
    const limit: Option<nat>
    var data: seq<byte>

    constructor (opens: bool, limit: Option<nat>, data: seq<byte>)
      ensures this.opens == opens && this.limit == limit && this.data == data
    {
      this.opens := opens;
      this.limit := limit;
      this.data := data;
    }
  }

  /** Writing from the start of a file leaves what lies beyond the written bytes. */
  function Overlay(before: seq<byte>, out: seq<byte>): seq<byte> {
    out + (if |before| > |out| then before[|out|..] else [])
  }

  class FileWriter {
    var overwrite: bool

    constructor (overwrite: bool)
      ensures this.overwrite == overwrite
    {
      this.overwrite := overwrite;
    }

    /** Open, copy, compare the count. The file is truncated on opening only with Overwrite. */
    method Consume(readers: seq<ReaderPromise>, disk: Disk, expectedBytes: nat, room: nat, ghost ds: seq<Outcome>)
      returns (err: Error)
      requires Carry(readers, ds) && room >= 1
      modifies readers, disk
      ensures err == NoError <==>
                disk.opens && Takes(disk.limit, |Copied(ds).0|) && FileAccepts(ds, expectedBytes)
      ensures !disk.opens ==> disk.data == old(disk.data) && forall r :: r in readers ==> unchanged(r)
      ensures disk.opens ==>
                disk.data == Overlay(if overwrite then [] else old(disk.data), Written(ds, disk.limit).0)
    {
      if !disk.opens {
        return Failure("error writing file");
      }
      if overwrite {
        disk.data := [];
      }
      var out, copyErr := CopyAll(readers, room, disk.limit, ds);
      disk.data := Overlay(disk.data, out);
      if copyErr != NoError {
        return Failure("error writing file");
      }
      if |out| != expectedBytes {
        return Failure("unexpected number of bytes");
      }
      return NoError;
    }
  }

  class NullWriter {
    constructor () {
    }

    /** Copy to nowhere, ignore the copy's error, compare the count. */
    method Consume(readers: seq<ReaderPromise>, expectedBytes: nat, room: nat, ghost ds: seq<Outcome>)
      returns (err: Error)
      requires Carry(readers, ds) && room >= 1
      modifies readers
      ensures err == NoError <==> NullAccepts(ds, expectedBytes)
    {
      var out, _ := CopyAll(readers, room, None, ds);
      if |out| != expectedBytes {
        return Failure("unexpected number of bytes");
      }
      return NoError;
    }
  }

  /** The written bytes at the start, the old ones after them, as long as the longer of the two. */
  lemma OverlayBytes(before: seq<byte>, out: seq<byte>, i: nat)
    ensures |Overlay(before, out)| == if |before| > |out| then |before| else |out|
    ensures i < |out| ==> Overlay(before, out)[i] == out[i]
    ensures |out| <= i < |before| ==> Overlay(before, out)[i] == before[i]
  {
    assert |before| > |out| ==> Overlay(before, out) == out + before[|out|..];
  }

  /** After an accepted download the file on disk is the stream exactly when it was truncated
      or was not longer than the stream before. */
  lemma LeftoverIff(before: seq<byte>, out: seq<byte>)
    ensures Overlay(before, out) == out <==> |before| <= |out|
  {
    if |before| > |out| {
      assert |Overlay(before, out)| == |before|;
    }
  }

  /** A two-byte file on disk, a one-byte download, no Overwrite: the download is accepted, and
      the old second byte is still there. */
  lemma LeftoverExample()
    ensures var ds := [Outcome([7], NoError)];
            && FileAccepts(ds, 1)
            && Overlay([1, 2], Copied(ds).0) == [7, 2]
            && Overlay([1, 2], Copied(ds).0) != Copied(ds).0
  {
    CopiedOne(Outcome([7], NoError));
  }
}
