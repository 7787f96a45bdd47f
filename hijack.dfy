/**
 * hijack, the one-direction copy loop of a relayed connection
 * (proxy.go:216-247).
 *
 * The source stream is a script of the answers src.Read gives, one per
 * call; the destination a script of the answers dst.Write gives, one per
 * call. The loop reads into a 32 KiB buffer, hands every non-empty chunk to
 * Write, and stops on the first failed write or the first read error; EOF
 * ends it cleanly.
 */
module Hijack {
  import opened Errors

  newtype byte = x: int | 0 <= x < 256

  /** defaultBufSize, 32 << 10 */
  const DefaultBufSize: nat := 32 * 1024

  /** One answer of src.Read(buf): the bytes it put in buf[0:nr], and er. */
  datatype ReadResult = ReadResult(chunk: seq<byte>, err: Option<Error>)

  /** One answer of dst.Write(b): the count nw it claims, and ew. */
  datatype WriteResult = WriteResult(n: int, err: Option<Error>)

  /** What hijack returns, and the chunks it handed to dst.Write, in order. */
  datatype Outcome = Outcome(err: Option<Error>, written: seq<seq<byte>>)

  /** io.Reader's promise: Read never reports more bytes than the buffer holds. */
  predicate FitsBuffer(src: seq<ReadResult>) {
    forall i :: 0 <= i < |src| ==> |src[i].chunk| <= DefaultBufSize
  }

  /**
   * The stream ends with an error (io.EOF or another). A stream that never
   * reports one keeps the loop running forever.
   */
  predicate EventuallyFails(src: seq<ReadResult>) {
    |src| > 0 && src[|src| - 1].err.Some?
  }

  /**
   * The verdict on writing a chunk of `nr` bytes: a reported error wins; a
   * count outside [0, nr] without an error is errInvalidWrite; a short count
   * is io.ErrShortWrite; a full count is success.
   */
  function WriteVerdict(nr: nat, w: WriteResult): (v: Option<Error>)
    ensures w.err.Some? ==> v == w.err
    ensures w.err.None? && (w.n < 0 || w.n > nr) ==> v == Some(ErrInvalidWrite)
    ensures w.err.None? && 0 <= w.n < nr ==> v == Some(ErrShortWrite)
    ensures v.None? <==> w.err.None? && w.n == nr
  {
    var (nw, ew) :=
      if w.n < 0 || nr < w.n then (0, if w.err.None? then Some(ErrInvalidWrite) else w.err)
      else (w.n, w.err);
    if ew.Some? then ew
    else if nr != nw then Some(ErrShortWrite)
    else None
  }

  /** The verdict on a read error: io.EOF is a clean end, anything else is returned. */
  function ReadVerdict(er: Error): (v: Option<Error>)
    ensures v.None? <==> er == EOF
    ensures v.Some? ==> v.value == er
  {
    if er == EOF then None else Some(er)
  }

  /** The chunk of a read as a list of Write calls: none for an empty read. */
  function Sent(r: ReadResult): seq<seq<byte>> {
    if |r.chunk| > 0 then [r.chunk] else []
  }

  /** The non-empty chunks of a stream, in order: every Write call the loop could make. */
  function NonEmpty(src: seq<ReadResult>): (cs: seq<seq<byte>>)
    ensures |cs| <= |src|
  {
    if src == [] then [] else Sent(src[0]) + NonEmpty(src[1..])
  }

  /** All bytes of a stream, in order. */
  function Received(src: seq<ReadResult>): seq<byte> {
    if src == [] then [] else src[0].chunk + Received(src[1..])
  }

  function Flatten(cs: seq<seq<byte>>): seq<byte> {
    if cs == [] then [] else cs[0] + Flatten(cs[1..])
  }

  /**
   * Reference definition of the loop from read `i` on, with `w` the index of
   * the next Write answer: one read per step, and one write per non-empty
   * chunk.
   */
  function CopyFrom(src: seq<ReadResult>, dst: seq<WriteResult>, i: nat, w: nat): Outcome
    requires EventuallyFails(src) && w <= i < |src| <= |dst|
    decreases |src| - i
  {
    var r := src[i];
    var nr := |r.chunk|;
    if nr > 0 && WriteVerdict(nr, dst[w]).Some? then
      Outcome(WriteVerdict(nr, dst[w]), [r.chunk])
    else if r.err.Some? then
      Outcome(ReadVerdict(r.err.value), Sent(r))
    else
      var rest := CopyFrom(src, dst, i + 1, w + |Sent(r)|);
      Outcome(rest.err, Sent(r) + rest.written)
  }

  /** What hijack does with the whole of both scripts. */
  function Copy(src: seq<ReadResult>, dst: seq<WriteResult>): Outcome
    requires EventuallyFails(src) && |src| <= |dst|
  {
    CopyFrom(src, dst, 0, 0)
  }

  /**
   * hijack: copies src to dst through one reused buffer. Reading is modelled
   * as copying the scripted chunk into `buf`; `written` records each slice
   * buf[0:nr] passed to dst.Write.
   */
  method Hijack(src: seq<ReadResult>, dst: seq<WriteResult>)
    returns (err: Option<Error>, written: seq<seq<byte>>)
    requires EventuallyFails(src) && FitsBuffer(src) && |dst| >= |src|
    ensures Outcome(err, written) == Copy(src, dst)
  {
    var buf := new byte[DefaultBufSize];
    var i, w := 0, 0;
    err, written := None, [];
    while true
      invariant w <= i < |src|
      invariant err == None
      invariant Copy(src, dst).err == CopyFrom(src, dst, i, w).err
      invariant Copy(src, dst).written == written + CopyFrom(src, dst, i, w).written
      decreases |src| - i
    {
      ghost var w0, written0 := w, written;
      var nr, er := Read(buf, src[i]);
      if nr > 0 {
        var b := buf[0..nr];
        assert b == src[i].chunk;
        written := written + [b];
        var ew := Write(nr, dst[w]);
        w := w + 1;
        if ew.Some? {
          err := ew;
          break;
        }
      }
      if er.Some? {
        if er != Some(EOF) {
          err := er;
        }
        break;
      }
      assert written == written0 + Sent(src[i]) && w == w0 + |Sent(src[i])|;
      CopyAdvance(src, dst, i, w0, written0);
      i := i + 1;
    }
  }

  /**
   * dst.Write(b) with |b| = nr, and the checks on its answer (proxy.go:223-237):
   * the error that ends the loop, or None to go on.
   */
  method Write(nr: nat, reply: WriteResult) returns (err: Option<Error>)
    ensures err == WriteVerdict(nr, reply)
  {
    var nw, ew := reply.n, reply.err;
    if nw < 0 || nr < nw {
      nw := 0;
      if ew == None {
        ew := Some(ErrInvalidWrite);
      }
    }
    if ew.Some? {
      return ew;
    }
    if nr != nw {
      return Some(ErrShortWrite);
    }
    return None;
  }

  lemma ConcatAssoc(a: seq<seq<byte>>, b: seq<seq<byte>>, c: seq<seq<byte>>)
    ensures a + (b + c) == (a + b) + c
  {
  }

  /** One more iteration of the loop keeps its invariant: the rest of Copy is still to come. */
  lemma CopyAdvance(src: seq<ReadResult>, dst: seq<WriteResult>, i: nat, w: nat, written: seq<seq<byte>>)
    requires EventuallyFails(src) && w <= i < |src| <= |dst|
    requires src[i].err.None?
    requires |src[i].chunk| > 0 ==> WriteVerdict(|src[i].chunk|, dst[w]).None?
    requires Copy(src, dst).err == CopyFrom(src, dst, i, w).err
    requires Copy(src, dst).written == written + CopyFrom(src, dst, i, w).written
    ensures var w' := w + |Sent(src[i])|;
            && i + 1 < |src| && w' <= i + 1
            && Copy(src, dst).err == CopyFrom(src, dst, i + 1, w').err
            && Copy(src, dst).written == written + Sent(src[i]) + CopyFrom(src, dst, i + 1, w').written
  {
    var w' := w + |Sent(src[i])|;
    ConcatAssoc(written, Sent(src[i]), CopyFrom(src, dst, i + 1, w').written);
  }

  /** src.Read(buf): the reader fills buf[0:nr] with its next chunk. */
  method Read(buf: array<byte>, r: ReadResult) returns (nr: nat, er: Option<Error>)
    requires |r.chunk| <= buf.Length
    modifies buf
    ensures nr == |r.chunk| && buf[..nr] == r.chunk && er == r.err
  {
    forall j | 0 <= j < |r.chunk| {
      buf[j] := r.chunk[j];
    }
    nr, er := |r.chunk|, r.err;
  }

  lemma {:induction false} NonEmptyAppend(a: seq<ReadResult>, b: seq<ReadResult>)
    ensures NonEmpty(a + b) == NonEmpty(a) + NonEmpty(b)
  {
    if a == [] {
      assert a + b == b;
    } else {
      assert (a + b)[1..] == a[1..] + b;
      NonEmptyAppend(a[1..], b);
    }
  }

  /** The index of the Write call that read `j`'s chunk would be handed to. */
  function WriteIndex(src: seq<ReadResult>, j: nat): (w: nat)
    requires j <= |src|
    ensures w <= j
  {
    |NonEmpty(src[..j])|
  }

  /** Each non-empty read moves the Write index on by one, an empty one not at all. */
  lemma WriteIndexNext(src: seq<ReadResult>, j: nat)
    requires j < |src|
    ensures WriteIndex(src, j + 1) == WriteIndex(src, j) + |Sent(src[j])|
  {
    assert src[..j + 1] == src[..j] + [src[j]];
    NonEmptyAppend(src[..j], [src[j]]);
    assert [src[j]][1..] == [];
  }

  /** Splitting off the first read of a stretch of the stream. */
  lemma NonEmptyFrom(src: seq<ReadResult>, i: nat, k: nat)
    requires i < k <= |src|
    ensures NonEmpty(src[i..k]) == Sent(src[i]) + NonEmpty(src[i + 1..k])
  {
    assert src[i..k][0] == src[i];
    assert src[i..k][1..] == src[i + 1..k];
  }

  /** Reads 0 .. k-1 neither failed nor led to a failed write, so the loop went on past them. */
  predicate RunsPast(src: seq<ReadResult>, dst: seq<WriteResult>, k: nat)
    requires k <= |src| <= |dst|
  {
    forall j :: 0 <= j < k ==>
      src[j].err.None? &&
      (|src[j].chunk| > 0 ==> WriteVerdict(|src[j].chunk|, dst[WriteIndex(src, j)]).None?)
  }

  /** Read `k` stops the loop: its chunk's write fails, or it carries an error. */
  predicate StopsAt(src: seq<ReadResult>, dst: seq<WriteResult>, k: nat)
    requires k < |src| <= |dst|
  {
    var c := src[k].chunk;
    src[k].err.Some? || (|c| > 0 && WriteVerdict(|c|, dst[WriteIndex(src, k)]).Some?)
  }

  /** CopyStopsAt from read `i` on, for induction on k - i. */
  lemma {:induction false} CopyFromStopsAt(src: seq<ReadResult>, dst: seq<WriteResult>, i: nat, k: nat)
    requires EventuallyFails(src) && i <= k < |src| <= |dst|
    requires RunsPast(src, dst, k) && StopsAt(src, dst, k)
    ensures var c := CopyFrom(src, dst, i, WriteIndex(src, i));
            var wv := WriteVerdict(|src[k].chunk|, dst[WriteIndex(src, k)]);
            && c.written == NonEmpty(src[i..k + 1])
            && c.err == if |src[k].chunk| > 0 && wv.Some? then wv else ReadVerdict(src[k].err.value)
    decreases k - i
  {
    NonEmptyFrom(src, i, k + 1);
    if i < k {
      WriteIndexNext(src, i);
      CopyFromStopsAt(src, dst, i + 1, k);
    } else {
      assert src[i + 1..k + 1] == [];
    }
  }

  /**
   * The loop, read by read: if it went on past reads 0 .. k-1 and read k
   * stops it, then it handed Write exactly the non-empty chunks of reads
   * 0 .. k (the chunk that arrives with an error included), and it returns
   * the failed write's error if there is one, otherwise the read error with
   * io.EOF turned into nil.
   */
  lemma CopyStopsAt(src: seq<ReadResult>, dst: seq<WriteResult>, k: nat)
    requires EventuallyFails(src) && |dst| >= |src| && k < |src|
    requires RunsPast(src, dst, k) && StopsAt(src, dst, k)
    ensures Copy(src, dst).written == NonEmpty(src[..k + 1])
    ensures var c := src[k].chunk;
            var wv := WriteVerdict(|c|, dst[WriteIndex(src, k)]);
            Copy(src, dst).err == if |c| > 0 && wv.Some? then wv else ReadVerdict(src[k].err.value)
  {
    assert WriteIndex(src, 0) == 0;
    CopyFromStopsAt(src, dst, 0, k);
    assert src[0..k + 1] == src[..k + 1];
  }

  /**
   * When dst accepts every chunk in full, the loop runs to the first read
   * error: everything read up to and including that read reaches dst, and
   * the result is nil for io.EOF and the error itself otherwise.
   */
  lemma CopyFullWrites(src: seq<ReadResult>, dst: seq<WriteResult>, k: nat)
    requires EventuallyFails(src) && |dst| >= |src| && k < |src|
    requires forall j :: 0 <= j < k ==> src[j].err.None?
    requires src[k].err.Some?
    requires forall j :: 0 <= j <= k && |src[j].chunk| > 0 ==>
               dst[WriteIndex(src, j)] == WriteResult(|src[j].chunk|, None)
    ensures Copy(src, dst) == Outcome(ReadVerdict(src[k].err.value), NonEmpty(src[..k + 1]))
  {
    CopyStopsAt(src, dst, k);
  }

  lemma {:induction false} FlattenPrefix(a: seq<seq<byte>>, b: seq<seq<byte>>)
    requires a <= b
    ensures Flatten(a) <= Flatten(b)
  {
    if a != [] {
      assert a[1..] <= b[1..];
      FlattenPrefix(a[1..], b[1..]);
    }
  }

  lemma {:induction false} FlattenNonEmpty(src: seq<ReadResult>)
    ensures Flatten(NonEmpty(src)) == Received(src)
  {
    if src != [] {
      FlattenNonEmpty(src[1..]);
      var s := Sent(src[0]);
      if |src[0].chunk| > 0 {
        assert (s + NonEmpty(src[1..]))[1..] == NonEmpty(src[1..]);
      } else {
        assert s + NonEmpty(src[1..]) == NonEmpty(src[1..]);
      }
    }
  }

  /** From read `i` on, the loop hands Write a prefix of the remaining non-empty chunks. */
  lemma {:induction false} CopyFromWrittenPrefix(src: seq<ReadResult>, dst: seq<WriteResult>, i: nat, w: nat)
    requires EventuallyFails(src) && w <= i < |src| <= |dst|
    ensures CopyFrom(src, dst, i, w).written <= NonEmpty(src[i..])
    decreases |src| - i
  {
    var r := src[i];
    var nr := |r.chunk|;
    assert src[i..][0] == r && src[i..][1..] == src[i + 1..];
    if !(nr > 0 && WriteVerdict(nr, dst[w]).Some?) && r.err.None? {
      CopyFromWrittenPrefix(src, dst, i + 1, w + |Sent(r)|);
    }
  }

  /** The bytes that reach dst are a prefix of the bytes read from src, in order. */
  lemma CopyBytesPrefix(src: seq<ReadResult>, dst: seq<WriteResult>)
    requires EventuallyFails(src) && |dst| >= |src|
    ensures Flatten(Copy(src, dst).written) <= Received(src)
  {
    CopyFromWrittenPrefix(src, dst, 0, 0);
    assert src[0..] == src;
    FlattenPrefix(Copy(src, dst).written, NonEmpty(src));
    FlattenNonEmpty(src);
  }
}
