/** The Linux inotify(7) record layout as the watcher reads it: a 16-byte
    header (`wd`, `mask`, `cookie`, `len`, 32-bit words, taken here in
    little-endian byte order) followed by `len` bytes of name field.
    Records are packed back to back inside one chunk returned by read(2).
    Everything here is pure: decoding performs no I/O and no table lookups. */
module InotifyRecord {
  import opened Wrappers

  type byte = x: int | 0 <= x < 256

  /** sizeof(struct inotify_event): four 32-bit words; the name follows. */
  const HeaderSize: nat := 16
  const Two31: int := 0x8000_0000
  const Two32: int := 0x1_0000_0000

  // ---------------------------------------------------------------------
  // 32-bit fields

  /** The unsigned little-endian word stored at `b[at..at+4]`. */
  function U32(b: seq<byte>, at: nat): (n: nat)
    requires at + 4 <= |b|
    ensures n < Two32
  {
    var b0: int, b1: int, b2: int, b3: int := b[at], b[at + 1], b[at + 2], b[at + 3];
    b0 + 256 * (b1 + 256 * (b2 + 256 * b3))
  }

  /** The same word read as a two's-complement `int` (the type of `wd`). */
  function I32(b: seq<byte>, at: nat): (n: int)
    requires at + 4 <= |b|
    ensures -Two31 <= n < Two31
    ensures U32(b, at) == (if n < 0 then n + Two32 else n)
  {
    var u := U32(b, at);
    if u < Two31 then u else u - Two32
  }

  /** The four bytes that store `n` little-endian. */
  function LE32(n: nat): (b: seq<byte>)
    requires n < Two32
    ensures |b| == 4
  {
    var m1 := n / 256;
    var m2 := m1 / 256;
    [n % 256, m1 % 256, m2 % 256, m2 / 256]
  }

  /** Two's-complement encoding of a signed 32-bit value. */
  function LEI32(n: int): (b: seq<byte>)
    requires -Two31 <= n < Two31
    ensures |b| == 4
  {
    LE32(if n < 0 then n + Two32 else n)
  }

  lemma U32OfLE32(b: seq<byte>, at: nat, n: nat)
    requires n < Two32
    requires at + 4 <= |b| && b[at..at + 4] == LE32(n)
    ensures U32(b, at) == n
  {
    var m1 := n / 256;
    var m2 := m1 / 256;
    assert b[at] == n % 256 && b[at + 1] == m1 % 256 by {
      assert b[at..at + 4][0] == b[at] && b[at..at + 4][1] == b[at + 1];
    }
    assert b[at + 2] == m2 % 256 && b[at + 3] == m2 / 256 by {
      assert b[at..at + 4][2] == b[at + 2] && b[at..at + 4][3] == b[at + 3];
    }
    assert m2 % 256 + 256 * (m2 / 256) == m2;
    assert m1 % 256 + 256 * m2 == m1;
    assert n % 256 + 256 * m1 == n;
  }

  lemma I32OfLEI32(b: seq<byte>, at: nat, n: int)
    requires -Two31 <= n < Two31
    requires at + 4 <= |b| && b[at..at + 4] == LEI32(n)
    ensures I32(b, at) == n
  {
    U32OfLE32(b, at, if n < 0 then n + Two32 else n);
  }

  // ---------------------------------------------------------------------
  // Header fields of the record that starts at `at`

  predicate HeaderFits(b: seq<byte>, at: nat) { at + HeaderSize <= |b| }

  function WdAt(b: seq<byte>, at: nat): int
    requires HeaderFits(b, at)
  { I32(b, at) }

  function MaskAt(b: seq<byte>, at: nat): nat
    requires HeaderFits(b, at)
  { U32(b, at + 4) }

  function CookieAt(b: seq<byte>, at: nat): nat
    requires HeaderFits(b, at)
  { U32(b, at + 8) }

  function LenAt(b: seq<byte>, at: nat): nat
    requires HeaderFits(b, at)
  { U32(b, at + 12) }

  /** The whole record, header and name field, lies inside the chunk. */
  predicate Fits(b: seq<byte>, at: nat)
  {
    HeaderFits(b, at) && at + HeaderSize + LenAt(b, at) <= |b|
  }

  /** How far the cursor advances past the record at `at`: INOTIFY_EVENT_SIZE + len. */
  function RecordSize(b: seq<byte>, at: nat): (n: nat)
    requires HeaderFits(b, at)
    ensures HeaderSize <= n
  {
    HeaderSize + LenAt(b, at)
  }

  /** The `len`-byte name field of the record at `at`. */
  function NameField(b: seq<byte>, at: nat): (f: seq<byte>)
    requires Fits(b, at)
    ensures |f| == LenAt(b, at)
  {
    b[at + HeaderSize .. at + HeaderSize + LenAt(b, at)]
  }

  // ---------------------------------------------------------------------
  // Walking a chunk

  /** The offsets at which the records of `b` start, walking from `at` with
      the cursor step of the listen loop; None when the walk meets a record
      that does not fit in the chunk. */
  function Walk(b: seq<byte>, at: nat): (r: Option<seq<nat>>)
    decreases |b| - at
    ensures r.Some? ==> forall k :: 0 <= k < |r.value| ==> at <= r.value[k] && Fits(b, r.value[k])
  {
    if at >= |b| then Some([])
    else if !Fits(b, at) then None
    else
      match Walk(b, at + RecordSize(b, at))
      case None => None
      case Some(rest) => Some([at] + rest)
  }

  /** A successful walk is a chain of records: it starts at `at`, each
      record begins where the previous one ends, and the last one ends
      exactly at the end of the chunk. */
  lemma {:induction false} WalkChain(b: seq<byte>, at: nat)
    requires Walk(b, at).Some?
    decreases |b| - at
    ensures var starts := Walk(b, at).value;
      (forall k :: 0 <= k < |starts| - 1 ==> starts[k + 1] == starts[k] + RecordSize(b, starts[k]))
      && (at >= |b| <==> starts == [])
      && (starts != [] ==> starts[0] == at && starts[|starts| - 1] + RecordSize(b, starts[|starts| - 1]) == |b|)
  {
    if at < |b| {
      var next := at + RecordSize(b, at);
      WalkChain(b, next);
      var starts := Walk(b, at).value;
      var rest := Walk(b, next).value;
      assert starts == [at] + rest;
      forall k | 0 <= k < |starts| - 1
        ensures starts[k + 1] == starts[k] + RecordSize(b, starts[k])
      {
        if k > 0 {
          assert starts[k] == rest[k - 1] && starts[k + 1] == rest[k];
        }
      }
    }
  }

  /** One step of the walk, stated on its own so that callers with a large
      context do not have to unfold Walk themselves. */
  lemma WalkStep(b: seq<byte>, at: nat, next: nat)
    requires at < |b| && Fits(b, at) && next == at + RecordSize(b, at)
    ensures Walk(b, next).None? ==> Walk(b, at).None?
    ensures Walk(b, next).Some? ==> Walk(b, at).Some? && Walk(b, at).value == [at] + Walk(b, next).value
  {
  }

  function Sum(s: seq<nat>): nat
  {
    if s == [] then 0 else s[0] + Sum(s[1..])
  }

  function SizesOf(b: seq<byte>, starts: seq<nat>): (s: seq<nat>)
    requires forall k :: 0 <= k < |starts| ==> HeaderFits(b, starts[k])
    ensures |s| == |starts|
    ensures forall k :: 0 <= k < |s| ==> s[k] == RecordSize(b, starts[k])
  {
    if starts == [] then [] else [RecordSize(b, starts[0])] + SizesOf(b, starts[1..])
  }

  /** The k-th record of a walk starts at `at` plus the sizes (16 + len) of
      all records before it. */
  lemma {:induction false} StartIsPrefixSum(b: seq<byte>, at: nat, k: nat)
    requires Walk(b, at).Some? && k < |Walk(b, at).value|
    decreases |b| - at
    ensures Walk(b, at).value[k] == at + Sum(SizesOf(b, Walk(b, at).value[..k]))
  {
    assert at < |b| && Fits(b, at);
    var next := at + RecordSize(b, at);
    WalkStep(b, at, next);
    if k > 0 {
      var starts := Walk(b, at).value;
      var rest := Walk(b, next).value;
      StartIsPrefixSum(b, next, k - 1);
      assert starts[..k] == [at] + rest[..k - 1];
      assert SizesOf(b, starts[..k]) == [RecordSize(b, at)] + SizesOf(b, rest[..k - 1]);
    }
  }

  // ---------------------------------------------------------------------
  // Encoding, the partner of the walk

  /** A record as the kernel writes it; `name` is the whole name field,
      NUL terminator and padding included, so `len == |name|`. */
  datatype Record = Record(wd: int, mask: nat, cookie: nat, name: seq<byte>)

  predicate WellFormed(r: Record)
  {
    -Two31 <= r.wd < Two31 && r.mask < Two32 && r.cookie < Two32 && |r.name| < Two32
  }

  function Encode(r: Record): (b: seq<byte>)
    requires WellFormed(r)
    ensures |b| == HeaderSize + |r.name|
  {
    LEI32(r.wd) + LE32(r.mask) + LE32(r.cookie) + LE32(|r.name|) + r.name
  }

  function EncodeAll(rs: seq<Record>): (b: seq<byte>)
    requires forall k :: 0 <= k < |rs| ==> WellFormed(rs[k])
  {
    if rs == [] then [] else Encode(rs[0]) + EncodeAll(rs[1..])
  }

  lemma SplitSlice(b: seq<byte>, at: nat, x: seq<byte>, y: seq<byte>)
    requires at + |x| + |y| <= |b| && b[at..at + |x| + |y|] == x + y
    ensures b[at..at + |x|] == x && b[at + |x|..at + |x| + |y|] == y
  {
    assert b[at..at + |x|] == (x + y)[..|x|];
    assert b[at + |x|..at + |x| + |y|] == (x + y)[|x|..];
  }

  /** Decoding the header of an encoded record, wherever it sits in the
      chunk, gives back the fields that were written. */
  lemma DecodeEncoded(b: seq<byte>, at: nat, r: Record)
    requires WellFormed(r)
    requires at + HeaderSize + |r.name| <= |b| && b[at..at + HeaderSize + |r.name|] == Encode(r)
    ensures Fits(b, at) && WdAt(b, at) == r.wd && MaskAt(b, at) == r.mask
      && CookieAt(b, at) == r.cookie && LenAt(b, at) == |r.name|
      && NameField(b, at) == r.name
  {
    var e := Encode(r);
    assert e == LEI32(r.wd) + LE32(r.mask) + LE32(r.cookie) + LE32(|r.name|) + r.name;
    SplitSlice(b, at, LEI32(r.wd) + LE32(r.mask) + LE32(r.cookie) + LE32(|r.name|), r.name);
    SplitSlice(b, at, LEI32(r.wd) + LE32(r.mask) + LE32(r.cookie), LE32(|r.name|));
    SplitSlice(b, at, LEI32(r.wd) + LE32(r.mask), LE32(r.cookie));
    SplitSlice(b, at, LEI32(r.wd), LE32(r.mask));
    I32OfLEI32(b, at, r.wd);
    U32OfLE32(b, at + 4, r.mask);
    U32OfLE32(b, at + 8, r.cookie);
    U32OfLE32(b, at + 12, |r.name|);
  }

  /** The first of a run of encoded records fits, decodes to the fields
      written, and the other records follow right after it. */
  lemma EncodedHead(b: seq<byte>, at: nat, rs: seq<Record>)
    requires rs != [] && forall k :: 0 <= k < |rs| ==> WellFormed(rs[k])
    requires at + |EncodeAll(rs)| <= |b| && b[at..at + |EncodeAll(rs)|] == EncodeAll(rs)
    ensures Fits(b, at) && RecordSize(b, at) + |EncodeAll(rs[1..])| == |EncodeAll(rs)|
    ensures b[at + RecordSize(b, at)..at + |EncodeAll(rs)|] == EncodeAll(rs[1..])
    ensures WdAt(b, at) == rs[0].wd && MaskAt(b, at) == rs[0].mask
      && CookieAt(b, at) == rs[0].cookie && NameField(b, at) == rs[0].name
  {
    SplitSlice(b, at, Encode(rs[0]), EncodeAll(rs[1..]));
    DecodeEncoded(b, at, rs[0]);
  }

  /** The records at `starts` carry, one by one, the fields of `rs`. */
  predicate Carries(b: seq<byte>, starts: seq<nat>, rs: seq<Record>)
  {
    |starts| == |rs|
    && forall k :: 0 <= k < |rs| ==>
      Fits(b, starts[k]) && WdAt(b, starts[k]) == rs[k].wd && MaskAt(b, starts[k]) == rs[k].mask
      && CookieAt(b, starts[k]) == rs[k].cookie && NameField(b, starts[k]) == rs[k].name
  }

  lemma CarriesCons(b: seq<byte>, at: nat, rest: seq<nat>, rs: seq<Record>)
    requires rs != [] && Fits(b, at) && Carries(b, rest, rs[1..])
    requires WdAt(b, at) == rs[0].wd && MaskAt(b, at) == rs[0].mask
      && CookieAt(b, at) == rs[0].cookie && NameField(b, at) == rs[0].name
    ensures Carries(b, [at] + rest, rs)
  {
    forall k | 1 <= k < |rs|
      ensures ([at] + rest)[k] == rest[k - 1] && rs[k] == rs[1..][k - 1]
    {
    }
  }

  /** A chunk made of N well-formed records walks to exactly N record
      starts, and each start decodes the record written there. */
  lemma {:induction false} WalkEncoded(b: seq<byte>, at: nat, rs: seq<Record>)
    requires forall k :: 0 <= k < |rs| ==> WellFormed(rs[k])
    requires at + |EncodeAll(rs)| == |b| && b[at..] == EncodeAll(rs)
    decreases |rs|
    ensures Walk(b, at).Some? && Carries(b, Walk(b, at).value, rs)
  {
    if rs != [] {
      EncodedHead(b, at, rs);
      var next := at + RecordSize(b, at);
      WalkEncoded(b, next, rs[1..]);
      WalkStep(b, at, next);
      CarriesCons(b, at, Walk(b, next).value, rs);
    }
  }

  /** A chunk whose last record is cut inside its header is rejected, not
      silently shortened. */
  lemma {:induction false} WalkRejectsTruncated(b: seq<byte>, at: nat, rs: seq<Record>)
    requires forall k :: 0 <= k < |rs| ==> WellFormed(rs[k])
    requires at + |EncodeAll(rs)| < |b| < at + |EncodeAll(rs)| + HeaderSize
    requires b[at..at + |EncodeAll(rs)|] == EncodeAll(rs)
    decreases |rs|
    ensures Walk(b, at).None?
  {
    if rs != [] {
      EncodedHead(b, at, rs);
      var next := at + RecordSize(b, at);
      WalkRejectsTruncated(b, next, rs[1..]);
      WalkStep(b, at, next);
    }
  }

  /** The two lemmas above for a chunk that is exactly a run of encoded records. */
  lemma ChunkOfRecords(rs: seq<Record>, tail: seq<byte>)
    requires forall k :: 0 <= k < |rs| ==> WellFormed(rs[k])
    requires |tail| < HeaderSize
    ensures tail == [] ==> Walk(EncodeAll(rs), 0).Some? && Carries(EncodeAll(rs), Walk(EncodeAll(rs), 0).value, rs)
    ensures tail != [] ==> Walk(EncodeAll(rs) + tail, 0).None?
  {
    var b := EncodeAll(rs) + tail;
    if tail == [] {
      assert b[0..] == EncodeAll(rs);
      WalkEncoded(b, 0, rs);
    } else {
      assert b[0..|EncodeAll(rs)|] == EncodeAll(rs);
      WalkRejectsTruncated(b, 0, rs);
    }
  }
}
