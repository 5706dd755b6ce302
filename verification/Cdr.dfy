/** CDR encoding of unsigned integers, strings and lists, aligned relative to the start of the buffer. */
module Cdr {
  import opened Integers

  /** Bytes of a C string without the terminator. */
  type CString = seq<Byte>

  /** Outcome of reading a value: the value and the position behind it. */
  datatype Read<+T> = Got(value: T, pos: nat) | Failed

  type Reader<!T> = (seq<Byte>, nat) -> Read<T>

  type Writer<!T> = (seq<Byte>, T) -> seq<Byte>

  // ---------------------------------------------------------------- reading

  function Align(p: nat): (q: nat)
    ensures p <= q < p + 4 && q % 4 == 0
  {
    p + (4 - p % 4) % 4
  }

  function ReadU8(d: seq<Byte>, p: nat): Read<Byte> {
    if p < |d| then Got(d[p], p + 1) else Failed
  }

  function Word(b0: Byte, b1: Byte, b2: Byte, b3: Byte): UInt32 {
    var i0: int, i1: int, i2: int, i3: int := b0, b1, b2, b3;
    i0 + 0x100 * i1 + 0x1_0000 * i2 + 0x100_0000 * i3
  }

  /** Little-endian, aligned to four bytes. */
  function ReadU32(d: seq<Byte>, p: nat): Read<UInt32> {
    var q := Align(p);
    if q + 4 <= |d| then
      Got(Word(d[q], d[q + 1], d[q + 2], d[q + 3]), q + 4)
    else
      Failed
  }

  /** The C string that starts the bytes: everything in front of the first NUL. */
  function ToNul(s: seq<Byte>): (t: CString)
    ensures t <= s && 0 !in t && (|t| < |s| ==> s[|t|] == 0)
  {
    if s == [] || s[0] == 0 then [] else [s[0]] + ToNul(s[1..])
  }

  /** A length that counts the terminator, then that many bytes; at most as many as the receiving array holds. */
  function ReadString(d: seq<Byte>, p: nat): Read<CString> {
    match ReadU32(d, p)
    case Failed => Failed
    case Got(length, q) =>
      if length <= CAPACITY && q + length <= |d| then Got(ToNul(d[q..q + length]), q + length) else Failed
  }

  const STRING_READER: Reader<CString> := (d: seq<Byte>, p: nat) => ReadString(d, p)

  /** Size of the array that strings are read into. */
  const CAPACITY := 256

  function ReadMany<T>(read: Reader<T>, d: seq<Byte>, p: nat, n: nat): Read<seq<T>>
    decreases n
  {
    if n == 0 then Got([], p) else
      match read(d, p)
      case Failed => Failed
      case Got(x, q) => Prepend([x], ReadMany(read, d, q, n - 1))
  }

  function Prepend<T>(s: seq<T>, r: Read<seq<T>>): Read<seq<T>> {
    match r
    case Failed => Failed
    case Got(t, p) => Got(s + t, p)
  }

  /** Where reading `n` elements from `p` stands: it has failed, or `done` has been read and it goes on at `q`. */
  ghost predicate Partly<T(!new)>(read: Reader<T>, d: seq<Byte>, p: nat, n: nat, failed: bool, done: seq<T>, q: nat) {
    if failed then ReadMany(read, d, p, n).Failed?
    else |done| <= n && ReadMany(read, d, p, n) == Prepend(done, ReadMany(read, d, q, n - |done|))
  }

  lemma PartlyStarts<T(!new)>(read: Reader<T>, d: seq<Byte>, p: nat, n: nat)
    ensures Partly(read, d, p, n, false, [], p)
  {
    var r := ReadMany(read, d, p, n);
    assert r.Got? ==> [] + r.value == r.value;
  }

  lemma PartlySteps<T(!new)>(read: Reader<T>, d: seq<Byte>, p: nat, n: nat, done: seq<T>, q: nat)
    requires Partly(read, d, p, n, false, done, q) && |done| < n
    ensures read(d, q).Got? ==> Partly(read, d, p, n, false, done + [read(d, q).value], read(d, q).pos)
    ensures read(d, q).Failed? ==> forall s: seq<T>, t: nat :: Partly(read, d, p, n, true, s, t)
  {
    if read(d, q).Got? {
      var x := read(d, q).value;
      var r := ReadMany(read, d, read(d, q).pos, n - |done| - 1);
      assert r.Got? ==> done + ([x] + r.value) == done + [x] + r.value;
    }
  }

  lemma PartlyEnds<T(!new)>(read: Reader<T>, d: seq<Byte>, p: nat, n: nat, done: seq<T>, q: nat)
    requires Partly(read, d, p, n, false, done, q) && |done| == n
    ensures ReadMany(read, d, p, n) == Got(done, q)
  {
    assert done + [] == done;
  }

  lemma PartlyFails<T(!new)>(read: Reader<T>, d: seq<Byte>, p: nat, n: nat, done: seq<T>, q: nat)
    requires Partly(read, d, p, n, true, done, q)
    ensures ReadMany(read, d, p, n).Failed?
  {
  }

  /** A 32-bit count, then that many elements. */
  function ReadList<T>(read: Reader<T>, d: seq<Byte>, p: nat): Read<seq<T>> {
    match ReadU32(d, p)
    case Failed => Failed
    case Got(n, q) => ReadMany(read, d, q, n)
  }

  // ---------------------------------------------------------------- writing

  function Zeros(n: nat): (s: seq<Byte>)
    ensures |s| == n
  {
    seq(n, _ => 0)
  }

  function PutU8(b: seq<Byte>, x: Byte): seq<Byte> {
    b + [x]
  }

  function PutU32(b: seq<Byte>, x: UInt32): seq<Byte> {
    b + Zeros(Align(|b|) - |b|) + [x % 0x100, x / 0x100 % 0x100, x / 0x1_0000 % 0x100, x / 0x100_0000]
  }

  predicate Fits(s: CString) {
    |s| < CAPACITY && 0 !in s
  }

  function PutString(b: seq<Byte>, s: CString): seq<Byte> {
    if |s| + 1 < 0x1_0000_0000 then PutU32(b, |s| + 1) + s + [0] else b
  }

  const STRING_WRITER: Writer<CString> := (b, s) => PutString(b, s)

  function PutMany<T>(put: Writer<T>, b: seq<Byte>, xs: seq<T>): seq<Byte>
    decreases |xs|
  {
    if xs == [] then b else PutMany(put, put(b, xs[0]), xs[1..])
  }

  function PutList<T>(put: Writer<T>, b: seq<Byte>, xs: seq<T>): seq<Byte> {
    if |xs| < 0x1_0000_0000 then PutMany(put, PutU32(b, |xs|), xs) else b
  }

  // ---------------------------------------------------------------- reading back

  /** What is read does not depend on what follows it. */
  ghost predicate Local<T(!new)>(read: Reader<T>) {
    forall d, p: nat, r {:trigger read(d + r, p)} :: read(d, p).Got? ==>
      p <= read(d, p).pos <= |d| && read(d + r, p) == read(d, p)
  }

  /** Reading gives back every value that was written, whatever stands before and after it. */
  ghost predicate Inverts<T(!new)>(read: Reader<T>, put: Writer<T>, fits: T -> bool) {
    forall b, x, r {:trigger read(put(b, x) + r, |b|)} :: fits(x) ==>
      |b| <= |put(b, x)| && read(put(b, x) + r, |b|) == Got(x, |put(b, x)|)
  }

  lemma U32Local(d: seq<Byte>, p: nat, r: seq<Byte>)
    requires ReadU32(d, p).Got?
    ensures p <= ReadU32(d, p).pos <= |d| && ReadU32(d + r, p) == ReadU32(d, p)
  {
  }

  lemma StringLocal(d: seq<Byte>, p: nat, r: seq<Byte>)
    requires ReadString(d, p).Got?
    ensures p <= ReadString(d, p).pos <= |d| && ReadString(d + r, p) == ReadString(d, p)
  {
    var u := ReadU32(d, p);
    assert ReadU32(d + r, p) == u;
    assert (d + r)[u.pos..u.pos + u.value] == d[u.pos..u.pos + u.value];
  }

  lemma StringsLocal()
    ensures Local(STRING_READER)
  {
    forall d, p: nat, r {:trigger STRING_READER(d + r, p)} | STRING_READER(d, p).Got?
      ensures p <= STRING_READER(d, p).pos <= |d| && STRING_READER(d + r, p) == STRING_READER(d, p)
    {
      StringLocal(d, p, r);
    }
  }

  lemma {:induction false} ManyLocal<T(!new)>(read: Reader<T>, d: seq<Byte>, p: nat, n: nat, r: seq<Byte>)
    requires Local(read) && ReadMany(read, d, p, n).Got? && p <= |d|
    ensures p <= ReadMany(read, d, p, n).pos <= |d| && ReadMany(read, d + r, p, n) == ReadMany(read, d, p, n)
    decreases n
  {
    if n > 0 {
      assert read(d + r, p) == read(d, p);
      ManyLocal(read, d, read(d, p).pos, n - 1, r);
    }
  }

  lemma ListLocal<T(!new)>(read: Reader<T>, d: seq<Byte>, p: nat, r: seq<Byte>)
    requires Local(read) && ReadList(read, d, p).Got?
    ensures p <= ReadList(read, d, p).pos <= |d| && ReadList(read, d + r, p) == ReadList(read, d, p)
  {
    var u := ReadU32(d, p);
    U32Local(d, p, r);
    assert ReadU32(d + r, p) == u;
    ManyLocal(read, d, u.pos, u.value, r);
  }

  lemma U8Inverts(b: seq<Byte>, x: Byte, r: seq<Byte>)
    ensures b <= PutU8(b, x) && ReadU8(PutU8(b, x) + r, |b|) == Got(x, |PutU8(b, x)|)
  {
  }

  lemma U32Inverts(b: seq<Byte>, x: UInt32, r: seq<Byte>)
    ensures b <= PutU32(b, x) && ReadU32(PutU32(b, x) + r, |b|) == Got(x, |PutU32(b, x)|)
  {
    var d, q := PutU32(b, x) + r, Align(|b|);
    assert d[q] == x % 0x100 && d[q + 1] == x / 0x100 % 0x100 && d[q + 2] == x / 0x1_0000 % 0x100
           && d[q + 3] == x / 0x100_0000;
    Digits(x);
  }

  lemma Digits(x: UInt32)
    ensures x == x % 0x100 + 0x100 * (x / 0x100 % 0x100)
                 + 0x1_0000 * (x / 0x1_0000 % 0x100) + 0x100_0000 * (x / 0x100_0000)
  {
    assert x / 0x1_0000 == x / 0x100 / 0x100;
    assert x / 0x100_0000 == x / 0x1_0000 / 0x100;
  }

  lemma {:induction false} ToNulInverts(s: CString, r: seq<Byte>)
    requires 0 !in s
    ensures ToNul(s + [0] + r) == s
  {
    if s != [] {
      ToNulInverts(s[1..], r);
      assert (s + [0] + r)[1..] == s[1..] + [0] + r;
    }
  }

  /** A string of at most 255 bytes is read back, */
  lemma StringInverts(b: seq<Byte>, s: CString, r: seq<Byte>)
    requires |s| <= 255 && 0 !in s
    ensures b <= PutString(b, s) && ReadString(PutString(b, s) + r, |b|) == Got(s, |PutString(b, s)|)
  {
    var u := PutU32(b, |s| + 1);
    var d := PutString(b, s) + r;
    assert d == u + (s + [0] + r);
    U32Inverts(b, |s| + 1, s + [0] + r);
    assert d[|u|..|u| + |s| + 1] == s + [0] + [];
    ToNulInverts(s, []);
  }

  /** and any longer one is refused. */
  lemma LongStringRefused(b: seq<Byte>, s: CString, r: seq<Byte>)
    requires 256 <= |s| < 0xFFFF_FFFF
    ensures ReadString(PutString(b, s) + r, |b|).Failed?
  {
    var d := PutString(b, s) + r;
    assert d == PutU32(b, |s| + 1) + (s + [0] + r);
    U32Inverts(b, |s| + 1, s + [0] + r);
  }

  /** What is read are the bytes in front of the first NUL; more than 256 bytes are never read. */
  lemma StringRead(d: seq<Byte>, p: nat)
    ensures ReadString(d, p).Got? <==>
              ReadU32(d, p).Got? && ReadU32(d, p).value <= 256 && ReadU32(d, p).pos + ReadU32(d, p).value <= |d|
    ensures ReadString(d, p).Got? ==>
              var n, q := ReadU32(d, p).value, ReadU32(d, p).pos;
              && ReadString(d, p).pos == q + n && ReadString(d, p).value <= d[q..q + n]
              && 0 !in ReadString(d, p).value
              && (|ReadString(d, p).value| < n ==> d[q + |ReadString(d, p).value|] == 0)
  {
  }

  lemma {:induction false} ManyInverts<T(!new)>(read: Reader<T>, put: Writer<T>, fits: T -> bool,
                                                b: seq<Byte>, xs: seq<T>, r: seq<Byte>)
    requires Inverts(read, put, fits) && Grows(put, fits) && forall x :: x in xs ==> fits(x)
    ensures b <= PutMany(put, b, xs)
    ensures ReadMany(read, PutMany(put, b, xs) + r, |b|, |xs|) == Got(xs, |PutMany(put, b, xs)|)
    decreases |xs|
  {
    if xs != [] {
      var b', d := put(b, xs[0]), PutMany(put, b, xs);
      assert xs[0] in xs;
      ManyInverts(read, put, fits, b', xs[1..], r);
      assert d + r == b' + (d[|b'|..] + r);
      assert read(b' + (d[|b'|..] + r), |b|) == Got(xs[0], |b'|);
      assert xs == [xs[0]] + xs[1..];
    }
  }

  /** Writing only appends. */
  ghost predicate Grows<T(!new)>(put: Writer<T>, fits: T -> bool) {
    forall b, x {:trigger put(b, x)} :: fits(x) ==> b <= put(b, x)
  }

  lemma ListInverts<T(!new)>(read: Reader<T>, put: Writer<T>, fits: T -> bool, b: seq<Byte>, xs: seq<T>, r: seq<Byte>)
    requires Inverts(read, put, fits) && Grows(put, fits) && |xs| < 0x1_0000_0000 && forall x :: x in xs ==> fits(x)
    ensures b <= PutList(put, b, xs) && ReadList(read, PutList(put, b, xs) + r, |b|) == Got(xs, |PutList(put, b, xs)|)
  {
    var b', d := PutU32(b, |xs|), PutList(put, b, xs);
    ManyInverts(read, put, fits, b', xs, r);
    assert d + r == b' + (d[|b'|..] + r);
    U32Inverts(b, |xs|, d[|b'|..] + r);
  }
}
