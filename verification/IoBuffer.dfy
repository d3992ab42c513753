/** network/io_buffer.h: big-endian reading and writing inside a span of bytes. */
module IoBuffer {
  import opened Integers

  // A window into a byte array: the model of `byte_span`.
  datatype Span = Span(data: array<u8>, lo: nat, hi: nat) {
    ghost predicate Valid() {
      lo <= hi <= data.Length
    }

    function Size(): nat
      requires Valid()
    {
      hi - lo
    }

    function Advance(count: nat): Span
      requires Valid() && count <= Size()
    {
      Span(data, lo + count, hi)
    }

    ghost function Bytes(): seq<u8>
      requires Valid()
      reads data
    {
      data[lo..hi]
    }
  }

  // ---- Specification ----

  // The value of a big-endian byte string.
  function BigEndian(s: seq<u8>): nat {
    if s == [] then 0 else 0x100 * BigEndian(s[..|s| - 1]) + s[|s| - 1]
  }

  // The low n bytes of v, most significant first.
  function ToBytes(v: nat, n: nat): (s: seq<u8>)
    ensures |s| == n
  {
    if n == 0 then [] else ToBytes(v / 0x100, n - 1) + [v % 0x100]
  }

  // d with the bytes from position `at` on overwritten by b.
  function Patch(d: seq<u8>, at: nat, b: seq<u8>): (r: seq<u8>)
    requires at + |b| <= |d|
  {
    d[..at] + b + d[at + |b|..]
  }

  lemma PatchNothing(d: seq<u8>, at: nat)
    requires at <= |d|
    ensures Patch(d, at, []) == d
  {
    assert d[..at] + [] + d[at..] == d;
  }

  lemma PatchOne(d: seq<u8>, at: nat, x: u8)
    requires at < |d|
    ensures Patch(d, at, [x]) == d[at := x]
  {
  }

  lemma PatchReadsBack(d: seq<u8>, lo: nat, hi: nat, b: seq<u8>)
    requires lo + |b| <= hi <= |d|
    ensures |Patch(d, lo, b)| == |d| && Patch(d, lo, b)[lo..hi][..|b|] == b
  {
  }

  // Two writes one after the other are one write of the concatenation.
  lemma PatchTwice(d: seq<u8>, at: nat, b: seq<u8>, c: seq<u8>)
    requires at + |b| + |c| <= |d|
    ensures |Patch(d, at, b)| == |d|
    ensures Patch(Patch(d, at, b), at + |b|, c) == Patch(d, at, b + c)
  {
    var p := Patch(d, at, b);
    assert p[..at + |b|] == d[..at] + b;
    assert p[at + |b| + |c|..] == d[at + |b| + |c|..];
    assert d[..at] + b + c == d[..at] + (b + c);
  }

  lemma {:induction false} BigEndianBound(s: seq<u8>)
    ensures BigEndian(s) < Pow2(8 * |s|)
  {
    if s != [] {
      BigEndianBound(s[..|s| - 1]);
      Pow2Add(8 * (|s| - 1), 8);
      Pow2Values();
    }
  }

  lemma {:induction false} BigEndianOfToBytes(v: nat, n: nat)
    requires v < Pow2(8 * n)
    ensures BigEndian(ToBytes(v, n)) == v
  {
    if n > 0 {
      Pow2Add(8 * (n - 1), 8);
      Pow2Values();
      BigEndianOfToBytes(v / 0x100, n - 1);
      assert ToBytes(v, n)[..n - 1] == ToBytes(v / 0x100, n - 1);
    }
  }

  lemma BigEndianOfByte(s: seq<u8>, i: nat)
    requires i < |s|
    ensures BigEndian(s[i..i + 1]) == s[i]
  {
    assert s[i..i + 1][..0] == [];
  }

  lemma {:induction false} ToBytesOfBigEndian(s: seq<u8>)
    ensures ToBytes(BigEndian(s), |s|) == s
  {
    if s != [] {
      ToBytesOfBigEndian(s[..|s| - 1]);
      assert BigEndian(s) / 0x100 == BigEndian(s[..|s| - 1]) && BigEndian(s) % 0x100 == s[|s| - 1];
      assert s[..|s| - 1] + [s[|s| - 1]] == s;
    }
  }

  lemma {:induction false} ToBytesAt(v: nat, n: nat, i: nat)
    requires i < n
    ensures ToBytes(v, n)[i] == v / Pow2(8 * (n - 1 - i)) % 0x100
    decreases n
  {
    if i < n - 1 {
      ToBytesAt(v / 0x100, n - 1, i);
      Pow2Add(8, 8 * (n - 2 - i));
      Pow2Values();
      DivDiv(v, Pow2(8 * (n - 2 - i)));
    }
  }

  lemma ReadEnds(s: seq<u8>)
    ensures BigEndian(s[..0]) * Pow2(8 * |s|) == 0
    ensures BigEndian(s[..|s|]) * Pow2(0) == BigEndian(s)
  {
    assert s[..|s|] == s;
  }

  lemma ReadStep(s: seq<u8>, i: nat)
    requires i < |s|
    ensures BigEndian(s[..i + 1]) * Pow2(8 * (|s| - 1 - i))
         == BigEndian(s[..i]) * Pow2(8 * (|s| - i)) + s[i] * Pow2(8 * (|s| - 1 - i))
  {
    var b, p := BigEndian(s[..i]), Pow2(8 * (|s| - 1 - i));
    assert s[..i + 1][..i] == s[..i];
    assert BigEndian(s[..i + 1]) == 0x100 * b + s[i];
    hide BigEndian, Pow2;
    Pow2Add(8, 8 * (|s| - 1 - i));
    Pow2Values();
    Horner(b, s[i], p);
  }

  // ---- The loops of the source ----

  // write_unsigned<T> with sizeof(T) == n.
  method WriteUnsigned(buf: Span, idx: nat, value: nat, n: nat) returns (count: nat)
    requires buf.Valid() && idx + n <= buf.Size()
    modifies buf.data
    ensures count == n
    ensures buf.data[..] == Patch(old(buf.data[..]), buf.lo + idx, ToBytes(value, n))
  {
    hide Patch;
    var at := buf.lo + idx;
    ghost var was := buf.data[..];
    PatchNothing(was, at);
    for i := 0 to n
      invariant buf.data[..] == Patch(was, at, ToBytes(value, n)[..i])
    {
      ToBytesAt(value, n, i);
      ghost var before := buf.data[..];
      buf.data[at + i] := (value / Pow2(8 * (n - 1 - i))) % 0x100;
      PatchTwice(was, at, ToBytes(value, n)[..i], [ToBytes(value, n)[i]]);
      assert ToBytes(value, n)[..i] + [ToBytes(value, n)[i]] == ToBytes(value, n)[..i + 1];
      PatchOne(before, at + i, ToBytes(value, n)[i]);
      assert buf.data[..] == before[at + i := ToBytes(value, n)[i]];
    }
    assert ToBytes(value, n)[..n] == ToBytes(value, n);
    count := n;
  }

  // write_byte_array: `bytes` is the content of the source span.
  method WriteByteArray(buf: Span, idx: nat, bytes: seq<u8>) returns (count: nat)
    requires buf.Valid() && idx + |bytes| <= buf.Size()
    modifies buf.data
    ensures count == |bytes|
    ensures buf.data[..] == Patch(old(buf.data[..]), buf.lo + idx, bytes)
  {
    hide Patch;
    var at := buf.lo + idx;
    ghost var was := buf.data[..];
    PatchNothing(was, at);
    for i := 0 to |bytes|
      invariant buf.data[..] == Patch(was, at, bytes[..i])
    {
      ghost var before := buf.data[..];
      buf.data[at + i] := bytes[i];
      PatchTwice(was, at, bytes[..i], [bytes[i]]);
      assert bytes[..i] + [bytes[i]] == bytes[..i + 1];
      PatchOne(before, at + i, bytes[i]);
      assert buf.data[..] == before[at + i := bytes[i]];
    }
    assert bytes[..|bytes|] == bytes;
    count := |bytes|;
  }

  // read_unsigned<T> with sizeof(T) == n; the bytes or'ed together occupy disjoint bits,
  // so `|` is addition.
  method ReadUnsigned(buf: Span, idx: nat, n: nat) returns (value: nat)
    requires buf.Valid() && idx + n <= buf.Size()
    ensures value == BigEndian(buf.Bytes()[idx..idx + n])
    ensures value < Pow2(8 * n)
  {
    hide BigEndian, Pow2;
    ghost var s := buf.Bytes()[idx..idx + n];
    ReadEnds(s);
    value := 0;
    for i := 0 to n
      invariant value == BigEndian(s[..i]) * Pow2(8 * (n - i))
    {
      var byte := buf.data[buf.lo + idx + i];
      value := value + byte * Pow2(8 * (n - 1 - i));
      ReadStep(s, i);
    }
    assert s[..n] == s;
    BigEndianBound(s);
  }
}
