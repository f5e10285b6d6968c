/**
 * The byte-level format that BinaryWriter and BinaryReader give the container file:
 * 32-bit little-endian integers, and strings written by the code itself as a
 * character count followed by the string's UTF-8 bytes. Reading is modelled as pure
 * functions from the bytes still unread to a value and the bytes left after it.
 */
module Wire {
  import opened Wrappers

  newtype byte = x: int | 0 <= x < 256

  const TWO_32: int := 0x1_0000_0000
  const INT32_MIN: int := -0x8000_0000
  const INT32_MAX: int := 0x7FFF_FFFF

  predicate IsInt32(x: int) {
    INT32_MIN <= x <= INT32_MAX
  }

  /** BinaryWriter.Write(int): the low 32 bits of x, least significant byte first. */
  function Int32Bytes(x: int): (r: seq<byte>)
    ensures |r| == 4
  {
    var u := x % TWO_32;
    var q1 := u / 256;
    var q2 := q1 / 256;
    var q3 := q2 / 256;
    [(u % 256) as byte, (q1 % 256) as byte, (q2 % 256) as byte, (q3 % 256) as byte]
  }

  /** BinaryReader.ReadInt32 on four bytes: little-endian two's complement. */
  function Int32Of(b: seq<byte>): (r: int)
    requires |b| == 4
    ensures IsInt32(r)
  {
    var u := b[0] as int + 256 * (b[1] as int + 256 * (b[2] as int + 256 * b[3] as int));
    if u <= INT32_MAX then u else u - TWO_32
  }

  /** Every int32 survives being written and read back. */
  lemma {:induction false} Int32RoundTrip(x: int)
    requires IsInt32(x)
    ensures Int32Of(Int32Bytes(x)) == x
  {
    var b := Int32Bytes(x);
    var u := x % TWO_32;
    var q1 := u / 256;
    var q2 := q1 / 256;
    var q3 := q2 / 256;
    assert q3 < 256;
    assert b[2] as int + 256 * b[3] as int == q2;
    assert b[1] as int + 256 * (b[2] as int + 256 * b[3] as int) == q1;
    assert b[0] as int + 256 * (b[1] as int + 256 * (b[2] as int + 256 * b[3] as int)) == u;
    assert u == if x >= 0 then x else x + TWO_32;
  }

  /** C#'s unchecked int arithmetic: the int32 congruent to x modulo 2^32. */
  function Wrap32(x: int): (r: int)
    ensures IsInt32(r)
    ensures IsInt32(x) ==> r == x
  {
    (x - INT32_MIN) % TWO_32 + INT32_MIN
  }

  /** C#'s `%`: the remainder takes the sign of the dividend (truncating division). */
  function TruncRem(a: int, m: int): (r: int)
    requires m > 0
    ensures -m < r < m
    ensures a >= 0 ==> 0 <= r && r == a % m
    ensures a < 0 ==> r <= 0
    ensures (a - r) % m == 0
  {
    RemMultiple(if a >= 0 then a else -a, m);
    if a >= 0 then a % m else -((-a) % m)
  }

  /** Less its remainder, a number is a multiple of m, and so is its negation. */
  lemma {:induction false} RemMultiple(b: int, m: int)
    requires m > 0
    ensures (b - b % m) % m == 0 && (-b + b % m) % m == 0
  {
    var q := b / m;
    assert b == m * q + b % m;
    assert -b + b % m == m * -q;
    MultipleRem(q, m);
    MultipleRem(-q, m);
  }

  lemma {:induction false} MultipleRem(q: int, m: int)
    requires m > 0
    ensures (m * q) % m == 0
  {
    var d := q - (m * q) / m;
    assert m * q == m * ((m * q) / m) + (m * q) % m;
    assert m * d == (m * q) % m;
    MulBounds(m, d);
  }

  /** A non-zero multiple of m is at least m in size. */
  lemma {:induction false} MulBounds(m: int, d: int)
    requires m > 0
    ensures d >= 1 ==> m * d >= m
    ensures d <= -1 ==> m * d <= -m
  {
    if d >= 1 {
      assert m * d == m + m * (d - 1);
    } else if d <= -1 {
      assert m * d == -m + m * (d + 1);
    }
  }

  predicate IsAscii(s: string) {
    forall i :: 0 <= i < |s| ==> s[i] as int < 128
  }

  /** The UTF-8 encoding of one Unicode scalar value. */
  function CharUtf8(c: char): (r: seq<byte>)
    ensures 1 <= |r| <= 4
    ensures |r| == 1 <==> c as int < 128
    ensures c as int < 128 ==> r == [c as int as byte]
  {
    var v := c as int;
    if v < 0x80 then [v as byte]
    else if v < 0x800 then [(0xC0 + v / 64) as byte, (0x80 + v % 64) as byte]
    else if v < 0x1_0000 then
      [(0xE0 + v / 4096) as byte, (0x80 + v / 64 % 64) as byte, (0x80 + v % 64) as byte]
    else
      [(0xF0 + v / 262144) as byte, (0x80 + v / 4096 % 64) as byte,
       (0x80 + v / 64 % 64) as byte, (0x80 + v % 64) as byte]
  }

  /** Encoding.UTF8.GetBytes: the bytes of each character in turn. */
  function Utf8Bytes(s: string): (r: seq<byte>)
    ensures |r| >= |s|
    ensures |r| == |s| <==> IsAscii(s)
  {
    if s == [] then [] else CharUtf8(s[0]) + Utf8Bytes(s[1..])
  }

  lemma {:induction false} Utf8AsciiBytes(s: string, i: nat)
    requires IsAscii(s) && i < |s|
    ensures |Utf8Bytes(s)| == |s| && Utf8Bytes(s)[i] as int == s[i] as int
  {
    if i > 0 {
      Utf8AsciiBytes(s[1..], i - 1);
    }
  }

  /**
   * Encoding.UTF8.GetString restricted to ASCII input: one character per byte.
   * Bytes of 128 and above are outside this model and give None.
   */
  function AsciiDecode(b: seq<byte>): (r: Option<string>)
    ensures r.Some? <==> forall i :: 0 <= i < |b| ==> b[i] < 128
    ensures r.Some? ==> |r.value| == |b| && IsAscii(r.value)
    ensures r.Some? ==> forall i :: 0 <= i < |b| ==> r.value[i] as int == b[i] as int
  {
    if b == [] then Some([])
    else if b[0] >= 128 then None
    else
      match AsciiDecode(b[1..])
      case Some(t) => Some([(b[0] as int) as char] + t)
      case None => None
  }

  lemma {:induction false} AsciiDecodeUtf8(s: string)
    requires IsAscii(s)
    ensures AsciiDecode(Utf8Bytes(s)) == Some(s)
  {
    if s != [] {
      AsciiDecodeUtf8(s[1..]);
      assert Utf8Bytes(s) == [s[0] as int as byte] + Utf8Bytes(s[1..]);
      assert Utf8Bytes(s)[1..] == Utf8Bytes(s[1..]);
      assert ((Utf8Bytes(s)[0] as int) as char) == s[0];
      assert [s[0]] + s[1..] == s;
    }
  }

  /** The string header the code writes: the character count, then the UTF-8 bytes. */
  function StringBytes(s: string): (r: seq<byte>)
    ensures |r| >= 4 + |s|
  {
    Int32Bytes(|s|) + Utf8Bytes(s)
  }

  // ---- reading ----

  datatype LoadError =
    | EndOfStream      // ReadInt32 with fewer than four bytes left
    | NegativeLength   // ReadBytes with a negative count
    | NonAsciiText     // string bytes outside the ASCII range (not modelled)

  /** BinaryReader.ReadInt32 on the remaining stream: the value and what is left after it. */
  function ReadInt32(s: seq<byte>): (r: Result<(int, seq<byte>), LoadError>)
    ensures r.Ok? <==> |s| >= 4
    ensures r.Ok? ==> r.value.1 == s[4..] && IsInt32(r.value.0)
  {
    if |s| >= 4 then Ok((Int32Of(s[..4]), s[4..])) else Err(EndOfStream)
  }

  /** BinaryReader.ReadBytes: a negative count throws, a short stream gives what is left. */
  function ReadBytes(s: seq<byte>, n: int): (r: Result<(seq<byte>, seq<byte>), LoadError>)
    ensures r.Ok? <==> n >= 0
    ensures r.Ok? ==> r.value.0 + r.value.1 == s && |r.value.0| == if n <= |s| then n else |s|
  {
    if n < 0 then Err(NegativeLength)
    else if n <= |s| then Ok((s[..n], s[n..]))
    else Ok((s, []))
  }

  /** The string reader of BlockIndex and FileRecord: a count, then that many bytes decoded. */
  function ReadString(s: seq<byte>): (r: Result<(string, seq<byte>), LoadError>)
    ensures r.Ok? ==> |r.value.1| <= |s| - 4
  {
    var count :- ReadInt32(s);
    var bytes :- ReadBytes(count.1, count.0);
    match AsciiDecode(bytes.0)
    case Some(t) => Ok((t, bytes.1))
    case None => Err(NonAsciiText)
  }

  /** An int32 is read back from its four bytes, leaving what followed them. */
  lemma {:induction false} ReadInt32Of(x: int, rest: seq<byte>)
    requires IsInt32(x)
    ensures ReadInt32(Int32Bytes(x) + rest) == Ok((x, rest))
  {
    var s := Int32Bytes(x) + rest;
    assert s[..4] == Int32Bytes(x) && s[4..] == rest;
    Int32RoundTrip(x);
  }

  lemma {:induction false} ReadBytesOf(b: seq<byte>, rest: seq<byte>)
    ensures ReadBytes(b + rest, |b|) == Ok((b, rest))
  {
    assert (b + rest)[..|b|] == b && (b + rest)[|b|..] == rest;
  }

  /** An ASCII string of int32 length is read back exactly as it was written. */
  lemma {:induction false} ReadStringOf(t: string, rest: seq<byte>)
    requires IsAscii(t) && IsInt32(|t|)
    ensures ReadString(StringBytes(t) + rest) == Ok((t, rest))
  {
    var b := Utf8Bytes(t);
    assert StringBytes(t) + rest == Int32Bytes(|t|) + (b + rest);
    ReadInt32Of(|t|, b + rest);
    ReadBytesOf(b, rest);
    AsciiDecodeUtf8(t);
  }

  // ---- sequences of items ----

  /** The bytes of the items of v, each written by enc, one after another. */
  function Concat<T>(enc: T -> seq<byte>, v: seq<T>): seq<byte> {
    if v == [] then [] else enc(v[0]) + Concat(enc, v[1..])
  }

  lemma {:induction false} ConcatSnoc<T>(enc: T -> seq<byte>, v: seq<T>, x: T)
    ensures Concat(enc, v + [x]) == Concat(enc, v) + enc(x)
  {
    if v == [] {
      assert [x][1..] == [];
    } else {
      assert (v + [x])[1..] == v[1..] + [x];
      ConcatSnoc(enc, v[1..], x);
    }
  }

  /** The bytes of the first i + 1 items: those of the first i, then those of item i. */
  /** Items that each take k bytes take k bytes apiece in a row. */
  lemma {:induction false} ConcatLength<T>(enc: T -> seq<byte>, v: seq<T>, k: nat)
    requires forall x :: |enc(x)| == k
    ensures |Concat(enc, v)| == k * |v|
  {
    if v != [] {
      ConcatLength(enc, v[1..], k);
    }
  }

  lemma {:induction false} ConcatTake<T>(enc: T -> seq<byte>, v: seq<T>, i: int)
    requires 0 <= i < |v|
    ensures Concat(enc, v[..i + 1]) == Concat(enc, v[..i]) + enc(v[i])
  {
    assert v[..i + 1] == v[..i] + [v[i]];
    ConcatSnoc(enc, v[..i], v[i]);
  }

  /** A loop `for (i = 0; i < n; i++)` reading one item with read each time; n <= 0 reads none. */
  function ReadMany<T>(read: seq<byte> -> Result<(T, seq<byte>), LoadError>, s: seq<byte>, n: int)
    : (r: Result<(seq<T>, seq<byte>), LoadError>)
    ensures r.Ok? ==> |r.value.0| == if n <= 0 then 0 else n
    decreases n
  {
    if n <= 0 then Ok(([], s))
    else
      var first :- read(s);
      var rest :- ReadMany(read, first.1, n - 1);
      Ok(([first.0] + rest.0, rest.1))
  }

  /** Items already read, put in front of the result of reading the rest. */
  function Prepend<T>(acc: seq<T>, r: Result<(seq<T>, seq<byte>), LoadError>): Result<(seq<T>, seq<byte>), LoadError> {
    if r.Ok? then Ok((acc + r.value.0, r.value.1)) else r
  }

  lemma {:induction false} PrependNone<T>(r: Result<(seq<T>, seq<byte>), LoadError>)
    ensures Prepend([], r) == r
  {
    if r.Ok? {
      assert [] + r.value.0 == r.value.0;
    }
  }

  /**
   * One turn of the reading loop: after a successful read of one item, what remains is the
   * same loop one item shorter, with that item in front.
   */
  lemma {:induction false} ReadManyStep<T>(read: seq<byte> -> Result<(T, seq<byte>), LoadError>, s: seq<byte>, n: int, m: int,
                        acc: seq<T>, x: T, t: seq<byte>)
    requires n > 0 && m == n - 1 && read(s) == Ok((x, t))
    ensures Prepend(acc, ReadMany(read, s, n)) == Prepend(acc + [x], ReadMany(read, t, m))
  {
    var r := ReadMany(read, t, m);
    if r.Ok? {
      assert acc + ([x] + r.value.0) == acc + [x] + r.value.0;
    }
  }

  /** Items that each read back from their own bytes read back as a list of them. */
  lemma {:induction false} ReadManyOf<T>(read: seq<byte> -> Result<(T, seq<byte>), LoadError>,
                                         enc: T -> seq<byte>, ok: T -> bool, v: seq<T>, rest: seq<byte>)
    requires forall x, t :: ok(x) ==> read(enc(x) + t) == Ok((x, t))
    requires forall i :: 0 <= i < |v| ==> ok(v[i])
    ensures ReadMany(read, Concat(enc, v) + rest, |v|) == Ok((v, rest))
    decreases |v|
  {
    if v == [] {
      assert Concat(enc, v) + rest == rest;
    } else {
      var t := v[1..];
      assert forall i :: 0 <= i < |t| ==> t[i] == v[i + 1];
      assert Concat(enc, v) + rest == enc(v[0]) + (Concat(enc, t) + rest);
      assert read(enc(v[0]) + (Concat(enc, t) + rest)) == Ok((v[0], Concat(enc, t) + rest));
      ReadManyOf(read, enc, ok, t, rest);
      assert [v[0]] + t == v;
    }
  }

  /**
   * For a non-ASCII string the written count (characters) falls short of the bytes that
   * follow it, so the reader stops inside the string: "é" is written as 1, 0xC3, 0xA9.
   */
  lemma {:induction false} NonAsciiStringMisread()
    ensures StringBytes("é") == [1, 0, 0, 0, 0xC3, 0xA9]
    ensures ReadString(StringBytes("é")) == Err(NonAsciiText)
  {
    var b := StringBytes("é");
    assert Int32Bytes(1) == [1, 0, 0, 0];
    assert Utf8Bytes("é") == [0xC3, 0xA9];
    assert b[..4] == [1, 0, 0, 0];
    assert Int32Of(b[..4]) == 1;
    assert ReadInt32(b) == Ok((1, [0xC3, 0xA9]));
    assert [0xC3, 0xA9][..1] == [0xC3];
    assert AsciiDecode([0xC3]) == None;
  }
}
