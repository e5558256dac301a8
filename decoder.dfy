/**
 * The chunked decoder `read_and_decode` (rzcf.py:26-37): up to `max_attempts`
 * reads of `chunk_size` bytes, each decoded strictly as UTF-8 together with
 * the unchanged `previous_chunk` argument, with an attempted-bytes counter
 * that ends the retries once it passes `max_window_size`.
 */
module Decoder {
  import opened Wrappers
  import opened Utf8

  /** rzcf.py:7-8, and the default of `max_attempts`. */
  const CHUNK_SIZE: nat := 0x800_0000
  const MAX_WINDOW_SIZE: nat := 0x4000_0000
  const MAX_ATTEMPTS: nat := 3

  /** The decompressed stream: the bytes it will still produce, read front to back. */
  class Reader {
    const data: seq<byte>
    var pos: nat

    ghost predicate Valid()
      reads this
    {
      pos <= |data|
    }

    /** The bytes not yet read. */
    function Remaining(): seq<byte>
      reads this
      requires Valid()
    {
      data[pos..]
    }

    constructor (data: seq<byte>)
      ensures Valid() && this.data == data && Remaining() == data
    {
      this.data := data;
      pos := 0;
    }

    /** `read(n)`: the next at most `n` bytes, fewer only at the end of the stream. */
    method Read(n: nat) returns (chunk: seq<byte>)
      requires Valid()
      modifies this`pos
      ensures Valid()
      ensures chunk == old(Remaining())[..Min(n, |old(Remaining())|)]
      ensures Remaining() == old(Remaining())[|chunk|..]
    {
      var k := Min(n, |data| - pos);
      chunk := data[pos..pos + k];
      pos := pos + k;
    }
  }

  function Min(a: int, b: int): int {
    if a <= b then a else b
  }

  /** The configuration parameters `chunk_size`, `max_window_size` and `max_attempts`. */
  datatype Config = Config(chunkSize: nat, maxWindowSize: int, maxAttempts: int)

  /** The shipped configuration: read_lines_zst passes the module constants (rzcf.py:45). */
  const SHIPPED: Config := Config(CHUNK_SIZE, MAX_WINDOW_SIZE, MAX_ATTEMPTS)

  /** What the raised `UnicodeError` reports: the counter and the number of attempts. */
  datatype DecodeError = DecodeError(bytesRead: int, attempts: nat)

  /**
   * The outcome of one call: the decoded text, the raised error, or `None`
   * when `max_attempts <= 0` leaves the loop body unrun.
   */
  datatype DecodeResult = Decoded(text: string) | Exhausted(error: DecodeError) | NoAttempt

  /** The outcome of a call and the number of reads it made. */
  datatype Attempts = Attempts(result: DecodeResult, readCount: nat)

  /** How many bytes of `rest` the first `a` reads of `cs` bytes consume. */
  function Offset(rest: seq<byte>, cs: nat, a: nat): (k: nat)
    ensures k <= |rest|
  {
    Min(a * cs, |rest|)
  }

  lemma OffsetStep(rest: seq<byte>, cs: nat, a: nat)
    ensures Offset(rest, cs, a) <= Offset(rest, cs, a + 1)
    ensures Offset(rest, cs, a + 1) == Offset(rest, cs, a) + Min(cs, |rest| - Offset(rest, cs, a))
  {
    assert (a + 1) * cs == a * cs + cs;
  }

  /** The bytes that read number `a` (counting from 0) returns. */
  function ChunkAt(rest: seq<byte>, cs: nat, a: nat): seq<byte>
  {
    OffsetStep(rest, cs, a);
    rest[Offset(rest, cs, a)..Offset(rest, cs, a + 1)]
  }

  function Prefix(previous: Option<seq<byte>>): seq<byte> {
    if previous.Some? then previous.value else []
  }

  /** The bytes attempt `a` decodes: the `previous_chunk` argument, then read number `a`. */
  function AttemptBytes(rest: seq<byte>, cs: nat, previous: Option<seq<byte>>, a: nat): seq<byte>
  {
    Prefix(previous) + ChunkAt(rest, cs, a)
  }

  /** The counter `bytes_read` after attempt `a`: one whole chunk size per attempt. */
  function CounterAfter(bytesRead: int, cs: nat, a: nat): int
  {
    bytesRead + (a + 1) * cs
  }

  lemma CounterStep(bytesRead: int, cs: nat, a: nat)
    ensures bytesRead + a * cs + cs == CounterAfter(bytesRead, cs, a) == bytesRead + (a + 1) * cs
  {
    assert (a + 1) * cs == a * cs + cs;
  }

  /** What a read of `cs` bytes after the first `a` reads returns, and what it leaves. */
  lemma ReadIsChunk(rest: seq<byte>, cs: nat, a: nat, chunk: seq<byte>)
    requires chunk == rest[Offset(rest, cs, a)..][..Min(cs, |rest[Offset(rest, cs, a)..]|)]
    ensures chunk == ChunkAt(rest, cs, a)
    ensures rest[Offset(rest, cs, a)..][|chunk|..] == rest[Offset(rest, cs, a + 1)..]
  {
    OffsetStep(rest, cs, a);
  }

  /** The raise condition of rzcf.py:35 for a failed attempt `a`. */
  predicate GivesUp(cfg: Config, bytesRead: int, a: nat)
  {
    a == cfg.maxAttempts - 1 || CounterAfter(bytesRead, cfg.chunkSize, a) > cfg.maxWindowSize
  }

  /** The attempts from number `a` on, for a stream whose unread bytes at the call were `rest`. */
  function AttemptFrom(rest: seq<byte>, cfg: Config, previous: Option<seq<byte>>, bytesRead: int, a: nat): Attempts
    decreases if a < cfg.maxAttempts then cfg.maxAttempts - a else 0
  {
    if a >= cfg.maxAttempts then
      Attempts(NoAttempt, a)
    else
      var bytes := AttemptBytes(rest, cfg.chunkSize, previous, a);
      if WellFormed(bytes) then
        Attempts(Decoded(Decode(bytes)), a + 1)
      else if GivesUp(cfg, bytesRead, a) then
        Attempts(Exhausted(DecodeError(CounterAfter(bytesRead, cfg.chunkSize, a), a + 1)), a + 1)
      else
        AttemptFrom(rest, cfg, previous, bytesRead, a + 1)
  }

  /** What `read_and_decode(reader, ...)` does when the reader holds `rest`. */
  function DecodeSpec(rest: seq<byte>, cfg: Config, previous: Option<seq<byte>>, bytesRead: int): Attempts
  {
    AttemptFrom(rest, cfg, previous, bytesRead, 0)
  }

  /**
   * rzcf.py:26-37. The reader ends up past exactly the reads made; the result is
   * the one DecodeSpec describes.
   */
  method ReadAndDecode(reader: Reader, cfg: Config, previousChunk: Option<seq<byte>>, bytesRead: int)
    returns (r: DecodeResult)
    requires reader.Valid()
    modifies reader
    ensures reader.Valid()
    ensures var spec := DecodeSpec(old(reader.Remaining()), cfg, previousChunk, bytesRead);
            r == spec.result && reader.Remaining() == old(reader.Remaining())[Offset(old(reader.Remaining()), cfg.chunkSize, spec.readCount)..]
  {
    ghost var rest := reader.Remaining();
    var counter := bytesRead;
    var attempt: nat := 0;
    while attempt < cfg.maxAttempts
      invariant reader.Valid()
      invariant counter == bytesRead + attempt * cfg.chunkSize
      invariant reader.Remaining() == rest[Offset(rest, cfg.chunkSize, attempt)..]
      invariant DecodeSpec(rest, cfg, previousChunk, bytesRead) == AttemptFrom(rest, cfg, previousChunk, bytesRead, attempt)
      decreases cfg.maxAttempts - attempt
    {
      var chunk := reader.Read(cfg.chunkSize);
      counter := counter + cfg.chunkSize;
      ReadIsChunk(rest, cfg.chunkSize, attempt, chunk);
      CounterStep(bytesRead, cfg.chunkSize, attempt);
      if previousChunk.Some? {
        chunk := previousChunk.value + chunk;
      }
      assert chunk == AttemptBytes(rest, cfg.chunkSize, previousChunk, attempt);
      if WellFormed(chunk) {
        return Decoded(Decode(chunk));
      }
      if attempt == cfg.maxAttempts - 1 || counter > cfg.maxWindowSize {
        return Exhausted(DecodeError(counter, attempt + 1));
      }
      attempt := attempt + 1;
    }
    return NoAttempt;
  }

  /** Attempt `b` failed to decode and did not raise, so the loop read again. */
  predicate Retried(rest: seq<byte>, cfg: Config, previous: Option<seq<byte>>, bytesRead: int, b: nat)
  {
    !WellFormed(AttemptBytes(rest, cfg.chunkSize, previous, b)) && !GivesUp(cfg, bytesRead, b)
  }

  /** How the last attempt `k` ends: its decoding when its bytes are well-formed, otherwise the error. */
  predicate EndsAt(rest: seq<byte>, cfg: Config, previous: Option<seq<byte>>, bytesRead: int, k: nat, r: DecodeResult)
  {
    var bytes := AttemptBytes(rest, cfg.chunkSize, previous, k);
    && !r.NoAttempt?
    && (r.Decoded? <==> WellFormed(bytes))
    && (r.Decoded? ==> r.text == Decode(bytes))
    && (r.Exhausted? ==> GivesUp(cfg, bytesRead, k)
                         && r.error == DecodeError(CounterAfter(bytesRead, cfg.chunkSize, k), k + 1))
  }

  lemma {:induction false} AttemptFromShape(rest: seq<byte>, cfg: Config, previous: Option<seq<byte>>, bytesRead: int, a: nat)
    requires a < cfg.maxAttempts
    ensures var r := AttemptFrom(rest, cfg, previous, bytesRead, a);
            && a + 1 <= r.readCount <= cfg.maxAttempts
            && (forall b :: a <= b < r.readCount - 1 ==> Retried(rest, cfg, previous, bytesRead, b))
            && EndsAt(rest, cfg, previous, bytesRead, r.readCount - 1, r.result)
    decreases cfg.maxAttempts - a
  {
    var bytes := AttemptBytes(rest, cfg.chunkSize, previous, a);
    if !WellFormed(bytes) && !GivesUp(cfg, bytesRead, a) {
      AttemptFromShape(rest, cfg, previous, bytesRead, a + 1);
    }
  }

  /**
   * The whole behaviour of one call: no read when `max_attempts <= 0`,
   * otherwise between 1 and `max_attempts` reads, every attempt but the last
   * failed without raising, and the last returns the decoding of its own bytes
   * (the `previous_chunk` argument and that read alone) or raises exactly when
   * the raise condition holds, reporting the counter and the attempt count.
   */
  lemma DecodeSpecCharacterized(rest: seq<byte>, cfg: Config, previous: Option<seq<byte>>, bytesRead: int)
    ensures var r := DecodeSpec(rest, cfg, previous, bytesRead);
            && (cfg.maxAttempts <= 0 <==> r.result == NoAttempt)
            && (cfg.maxAttempts <= 0 ==> r.readCount == 0)
            && (cfg.maxAttempts > 0 ==> 1 <= r.readCount <= cfg.maxAttempts)
            && (forall b :: 0 <= b < r.readCount - 1 ==> Retried(rest, cfg, previous, bytesRead, b))
            && (r.readCount > 0 ==> EndsAt(rest, cfg, previous, bytesRead, r.readCount - 1, r.result))
  {
    if cfg.maxAttempts > 0 {
      AttemptFromShape(rest, cfg, previous, bytesRead, 0);
    }
  }

  /**
   * With the shipped constants and a fresh counter the window test never
   * fires (3 * 2^27 < 2^30): the decoder raises only after its third attempt.
   */
  lemma ShippedWindowNeverFires(rest: seq<byte>, previous: Option<seq<byte>>)
    ensures forall a :: 0 <= a < MAX_ATTEMPTS ==> CounterAfter(0, CHUNK_SIZE, a) <= MAX_WINDOW_SIZE
    ensures var r := DecodeSpec(rest, SHIPPED, previous, 0);
            r.result.Exhausted? ==> r.readCount == MAX_ATTEMPTS && r.result.error.attempts == MAX_ATTEMPTS
  {
    DecodeSpecCharacterized(rest, SHIPPED, previous, 0);
    var r := DecodeSpec(rest, SHIPPED, previous, 0);
    var k := r.readCount - 1;
    if r.result.Exhausted? {
      assert GivesUp(SHIPPED, 0, k);
      assert CounterAfter(0, CHUNK_SIZE, k) <= MAX_WINDOW_SIZE by {
        assert k <= 2;
        assert (k + 1) * CHUNK_SIZE <= 3 * CHUNK_SIZE;
      }
    }
  }

  /** A text that is not empty was decoded from bytes the call took from the stream. */
  lemma NonEmptyTextConsumes(rest: seq<byte>, cfg: Config, bytesRead: int)
    requires DecodeSpec(rest, cfg, None, bytesRead).result.Decoded?
    requires DecodeSpec(rest, cfg, None, bytesRead).result.text != ""
    ensures Offset(rest, cfg.chunkSize, DecodeSpec(rest, cfg, None, bytesRead).readCount) > 0
  {
    DecodeSpecCharacterized(rest, cfg, None, bytesRead);
    var r := DecodeSpec(rest, cfg, None, bytesRead);
    var k := r.readCount - 1;
    assert AttemptBytes(rest, cfg.chunkSize, None, k) == ChunkAt(rest, cfg.chunkSize, k);
    OffsetStep(rest, cfg.chunkSize, k);
  }

  /**
   * With a positive chunk size the empty text, which read_lines_zst takes as
   * the end of the stream (rzcf.py:46-47), is returned only once every byte
   * has been read.
   */
  lemma EmptyTextOnlyAtEnd(rest: seq<byte>, cfg: Config, bytesRead: int)
    requires cfg.chunkSize > 0
    requires DecodeSpec(rest, cfg, None, bytesRead).result == Decoded("")
    ensures Offset(rest, cfg.chunkSize, DecodeSpec(rest, cfg, None, bytesRead).readCount) == |rest|
  {
    DecodeSpecCharacterized(rest, cfg, None, bytesRead);
    var r := DecodeSpec(rest, cfg, None, bytesRead);
    var k := r.readCount - 1;
    assert AttemptBytes(rest, cfg.chunkSize, None, k) == ChunkAt(rest, cfg.chunkSize, k);
    OffsetStep(rest, cfg.chunkSize, k);
  }

  /** A source already at its end reads as the empty text, the end-of-stream signal. */
  lemma EmptySourceGivesEmptyText(cfg: Config, bytesRead: int)
    requires cfg.maxAttempts >= 1
    ensures DecodeSpec([], cfg, None, bytesRead) == Attempts(Decoded(""), 1)
  {
    assert AttemptBytes([], cfg.chunkSize, None, 0) == [];
  }

  /** When the first read is well-formed by itself, the call returns its decoding. */
  lemma FirstReadDecodes(rest: seq<byte>, cfg: Config, bytesRead: int)
    requires cfg.maxAttempts >= 1
    requires WellFormed(ChunkAt(rest, cfg.chunkSize, 0))
    ensures DecodeSpec(rest, cfg, None, bytesRead)
            == Attempts(Decoded(Decode(ChunkAt(rest, cfg.chunkSize, 0))), 1)
  {
    assert AttemptBytes(rest, cfg.chunkSize, None, 0) == ChunkAt(rest, cfg.chunkSize, 0);
  }

  /**
   * The failed bytes are not carried into the next attempt: the two bytes of
   * U+00E9 read one at a time both fail, and the third read (the end of the
   * stream) returns the empty text, although the two bytes together decode.
   */
  lemma SplitCharacterLost()
    ensures WellFormed([0xC3, 0xA9]) && Decode([0xC3, 0xA9]) == "\U{E9}"
    ensures DecodeSpec([0xC3, 0xA9], Config(1, MAX_WINDOW_SIZE, 3), None, 0) == Attempts(Decoded(""), 3)
  {
    var rest: seq<byte> := [0xC3, 0xA9];
    var cfg := Config(1, MAX_WINDOW_SIZE, 3);
    assert IsChar2(rest[..2]);
    assert CharLen(rest) == 2;
    assert ChunkAt(rest, 1, 0) == [0xC3];
    assert ChunkAt(rest, 1, 1) == [0xA9];
    assert ChunkAt(rest, 1, 2) == [];
    assert CharLen([0xC3]) == 0;
    assert CharLen([0xA9]) == 0;
    assert AttemptBytes(rest, 1, None, 0) == [0xC3];
    assert AttemptBytes(rest, 1, None, 1) == [0xA9];
    assert AttemptBytes(rest, 1, None, 2) == [];
  }
}
