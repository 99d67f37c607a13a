/**
 Little-endian machine words and buffers of words.
 */
module Words {

  type Byte = b: nat | b < 256

  type Bytes = seq<Byte>

  const TWO_32 := 0x1_0000_0000

  predicate Int32(v: int) {
    -0x8000_0000 <= v < 0x8000_0000
  }

  /** An unsigned 32-bit number in four bytes, the lowest first. */
  function Unsigned(u: nat): (b: Bytes)
    requires u < TWO_32
    ensures |b| == 4
  {
    var u1 := u / 0x100;
    var u2 := u1 / 0x100;
    [u % 0x100, u1 % 0x100, u2 % 0x100, u2 / 0x100]
  }

  function UnsignedOf(b: Bytes): (u: nat)
    requires |b| == 4
    ensures u < TWO_32
  {
    b[0] as int + 0x100 * (b[1] as int + 0x100 * (b[2] as int + 0x100 * b[3] as int))
  }

  /** A two's complement integer. */
  function Word(v: int): (b: Bytes)
    requires Int32(v)
    ensures |b| == 4
  {
    Unsigned(if v < 0 then v + TWO_32 else v)
  }

  function IntOf(b: Bytes): (v: int)
    requires |b| == 4
    ensures Int32(v)
  {
    var u := UnsignedOf(b);
    if u < 0x8000_0000 then u else u - TWO_32
  }

  lemma WordRoundTrip(v: int)
    requires Int32(v)
    ensures IntOf(Word(v)) == v
  {
  }

  /** The lowest byte comes first, and the bytes give the number up to a multiple of 2 to the 32nd. */
  lemma LowestFirst(b: Bytes)
    requires |b| == 4
    ensures
      var b0: int, b1: int, b2: int, b3: int := b[0], b[1], b[2], b[3];
      (b0 + 0x100 * b1 + 0x1_0000 * b2 + 0x100_0000 * b3 - IntOf(b)) % TWO_32 == 0
    ensures Word(IntOf(b)) == b
  {
    var u, b0: int, b1: int, b2: int, b3: int := UnsignedOf(b), b[0], b[1], b[2], b[3];
    assert u / 0x100 == b1 + 0x100 * (b2 + 0x100 * b3) && u % 0x100 == b0;
    assert u / 0x100 / 0x100 == b2 + 0x100 * b3 && u / 0x100 % 0x100 == b1;
  }

  /** A 64-bit size. */
  function Long(n: nat): (b: Bytes)
    requires n < TWO_32 * TWO_32
    ensures |b| == 8
  {
    Unsigned(n % TWO_32) + Unsigned(n / TWO_32)
  }

  function LongOf(b: Bytes): nat
    requires |b| == 8
  {
    UnsignedOf(b[..4]) + TWO_32 * UnsignedOf(b[4..])
  }

  lemma LongRoundTrip(n: nat)
    requires n < TWO_32 * TWO_32
    ensures LongOf(Long(n)) == n
    ensures n < TWO_32 ==> Long(n) == Unsigned(n) + [0, 0, 0, 0]
  {
  }

  // ---- Sequences of words ------------------------------------------------------------------------------

  ghost predicate AllInt32(ws: seq<int>) {
    forall w <- ws :: Int32(w)
  }

  ghost function Encode(ws: seq<int>): (b: Bytes)
    requires AllInt32(ws)
    ensures |b| == 4 * |ws|
  {
    if ws == [] then []
    else
      assert ws[|ws| - 1] in ws;
      Encode(ws[..|ws| - 1]) + Word(ws[|ws| - 1])
  }

  /** The k-th word stands at byte 4k. */
  lemma {:induction false} EncodeAt(ws: seq<int>, k: nat)
    requires AllInt32(ws) && k < |ws|
    ensures Encode(ws)[4 * k..4 * k + 4] == Word(ws[k])
  {
    var n := |ws| - 1;
    if k < n {
      EncodeAt(ws[..n], k);
      assert Encode(ws)[4 * k..4 * k + 4] == Encode(ws[..n])[4 * k..4 * k + 4];
    }
  }

  // ---- Buffers -----------------------------------------------------------------------------------------

  /** The buffer `was` with `done` written at its start. */
  ghost predicate Filled(buf: Bytes, was: Bytes, done: Bytes) {
    |done| <= |was| && buf == done + was[|done|..]
  }

  /** Copies bytes to the place after those already written. */
  method CopyIn(dest: array<Byte>, offset: nat, b: Bytes, ghost was: Bytes, ghost done: Bytes) returns (offset': nat)
    requires Filled(dest[..], was, done) && offset == |done| && |done| + |b| <= |was|
    modifies dest
    ensures Filled(dest[..], was, done + b) && offset' == |done + b|
  {
    ghost var buf := dest[..];
    for i := 0 to |b|
      invariant dest[..] == buf[..offset] + b[..i] + buf[offset + i..]
    {
      dest[offset + i] := b[i];
    }
    offset' := offset + |b|;
    assert buf[..offset] == done && buf[offset'..] == was[offset'..];
  }

  lemma NothingFilled(was: Bytes)
    ensures Filled(was, was, [])
  {
  }

  /** The buffer `was` with the first `k` words of `ws` written into it. */
  ghost predicate Written(buf: Bytes, was: Bytes, ws: seq<int>, k: nat) {
    AllInt32(ws) && k <= |ws| && 4 * |ws| <= |was| && Filled(buf, was, Encode(ws[..k]))
  }

  lemma NothingWritten(was: Bytes, ws: seq<int>)
    requires AllInt32(ws) && 4 * |ws| <= |was|
    ensures Written(was, was, ws, 0)
  {
  }

  lemma AllWritten(buf: Bytes, was: Bytes, ws: seq<int>)
    requires Written(buf, was, ws, |ws|)
    ensures |buf| == |was| && buf[..4 * |ws|] == Encode(ws) && buf[4 * |ws|..] == was[4 * |ws|..]
  {
    assert ws[..|ws|] == ws;
  }

  /** Writes the next word. */
  method Put(dest: array<Byte>, offset: nat, v: int, ghost was: Bytes, ghost ws: seq<int>, ghost k: nat)
      returns (offset': nat)
    requires offset == 4 * k && k < |ws| && ws[k] == v && Written(dest[..], was, ws, k)
    modifies dest
    ensures offset' == offset + 4 && Written(dest[..], was, ws, k + 1)
  {
    hide Filled, Word;
    assert v in ws && ws[..k + 1][..k] == ws[..k];
    offset' := CopyIn(dest, offset, Word(v), was, Encode(ws[..k]));
  }

  /** Writes the words of a vector. */
  method PutMany(dest: array<Byte>, offset: nat, vs: seq<int>, ghost was: Bytes, ghost ws: seq<int>, ghost k: nat)
      returns (offset': nat)
    requires offset == 4 * k && k + |vs| <= |ws| && ws[k..k + |vs|] == vs && Written(dest[..], was, ws, k)
    modifies dest
    ensures offset' == 4 * (k + |vs|) && Written(dest[..], was, ws, k + |vs|)
  {
    hide Written;
    offset' := offset;
    for i := 0 to |vs|
      invariant offset' == 4 * (k + i) && Written(dest[..], was, ws, k + i)
    {
      assert ws[k + i] == ws[k..k + |vs|][i];
      offset' := Put(dest, offset', vs[i], was, ws, k + i);
    }
  }

  /** Reads a word of a buffer that starts with `ws`. */
  method Get(src: Bytes, offset: nat, ghost ws: seq<int>, ghost k: nat) returns (v: int, offset': nat)
    requires offset == 4 * k && k < |ws| && StartsWith(src, ws)
    ensures v == ws[k] && offset' == offset + 4
  {
    WordInBuffer(src, ws, k);
    v, offset' := IntOf(src[offset..offset + 4]), offset + 4;
  }

  /** Reads `n` words onto the end of a vector. */
  method GetMany(src: Bytes, offset: nat, n: nat, into: seq<int>, ghost ws: seq<int>, ghost k: nat)
    returns (vs: seq<int>, offset': nat)
    requires offset == 4 * k && k + n <= |ws| && StartsWith(src, ws)
    ensures vs == into + ws[k..k + n] && offset' == 4 * (k + n)
  {
    hide StartsWith;
    vs, offset' := into, offset;
    for i := 0 to n
      invariant offset' == 4 * (k + i) && vs == into + ws[k..k + i]
    {
      var v;
      v, offset' := Get(src, offset', ws, k + i);
      vs := vs + [v];
    }
  }

  lemma WordInBuffer(buf: Bytes, ws: seq<int>, k: nat)
    requires StartsWith(buf, ws) && k < |ws|
    ensures IntOf(buf[4 * k..4 * k + 4]) == ws[k]
  {
    EncodeAt(ws, k);
    assert ws[k] in ws;
    WordRoundTrip(ws[k]);
    assert buf[4 * k..4 * k + 4] == buf[..4 * |ws|][4 * k..4 * k + 4];
  }

  ghost predicate StartsWith(buf: Bytes, ws: seq<int>) {
    AllInt32(ws) && 4 * |ws| <= |buf| && buf[..4 * |ws|] == Encode(ws)
  }
}
