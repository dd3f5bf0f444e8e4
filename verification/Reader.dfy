/** The bounds-checked little-endian reader that both binary parsers use. */
module Reader {
  import opened Base

  /** The unsigned value of a little-endian byte string. */
  function Le(s: seq<byte>): (v: nat) {
    if s == [] then 0 else s[0] + 256 * Le(s[1..])
  }

  /** The n-byte field at offset at. */
  function Field(b: seq<byte>, at: nat, n: nat): nat
    requires at + n <= |b|
  {
    Le(b[at..at + n])
  }

  predicate InBounds(data: seq<byte>, offset: nat, length: nat) {
    offset <= |data| && length <= |data| - offset
  }

  function ReadLe(data: seq<byte>, offset: nat, n: nat): Result<nat, ErrorCode> {
    if InBounds(data, offset, n) then Ok(Field(data, offset, n)) else Err(OutOfRange)
  }

  function U8(data: seq<byte>, offset: nat): Result<nat, ErrorCode> { ReadLe(data, offset, 1) }

  function U16(data: seq<byte>, offset: nat): Result<nat, ErrorCode> { ReadLe(data, offset, 2) }

  function U32(data: seq<byte>, offset: nat): Result<nat, ErrorCode> { ReadLe(data, offset, 4) }

  function U64(data: seq<byte>, offset: nat): Result<nat, ErrorCode> { ReadLe(data, offset, 8) }

  function Bytes(data: seq<byte>, offset: nat, length: nat): Result<seq<byte>, ErrorCode> {
    if InBounds(data, offset, length) then Ok(data[offset..offset + length]) else Err(OutOfRange)
  }

  // ----- strings -----

  /** The first index in [lo, hi) that holds a NUL, or hi. */
  function FirstNul(data: seq<byte>, lo: nat, hi: nat): (k: nat)
    requires lo <= hi <= |data|
    ensures lo <= k <= hi
    ensures forall j :: lo <= j < k ==> data[j] != 0
    ensures k < hi ==> data[k] == 0
    decreases hi - lo
  {
    if lo == hi || data[lo] == 0 then lo else FirstNul(data, lo + 1, hi)
  }

  function StringLimit(data: seq<byte>, offset: nat, maxLength: nat): (hi: nat)
    requires offset < |data|
  {
    if maxLength < |data| - offset then offset + maxLength else |data|
  }

  /** The NUL-terminated string at offset: its NUL must lie inside the buffer
      and within maxLength bytes. */
  function CString(data: seq<byte>, offset: nat, maxLength: nat): Result<seq<byte>, ErrorCode> {
    if offset >= |data| then Err(OutOfRange)
    else
      var hi := StringLimit(data, offset, maxLength);
      var k := FirstNul(data, offset, hi);
      if k == hi then Err(OutOfRange) else Ok(data[offset..k])
  }

  method ReadCString(data: seq<byte>, offset: nat, maxLength: nat) returns (r: Result<seq<byte>, ErrorCode>)
    ensures r == CString(data, offset, maxLength)
  {
    if offset >= |data| {
      return Err(OutOfRange);
    }
    var len := 0;
    ghost var hi := StringLimit(data, offset, maxLength);
    while len < maxLength && offset + len < |data| && data[offset + len] != 0
      invariant 0 <= len && offset + len <= hi
      invariant FirstNul(data, offset + len, hi) == FirstNul(data, offset, hi)
      decreases |data| - offset - len
    {
      len := len + 1;
    }
    if len == maxLength || offset + len >= |data| {
      return Err(OutOfRange);
    }
    return Ok(data[offset..offset + len]);
  }

  /** What a successful read means, without the search: the result has no NUL
      and is followed by one inside both limits. */
  predicate TerminatedAt(data: seq<byte>, offset: nat, maxLength: nat, s: seq<byte>) {
    |s| < maxLength && offset + |s| < |data| && data[offset..offset + |s|] == s &&
    0 !in s && data[offset + |s|] == 0
  }

  lemma {:induction false} FirstNulAt(data: seq<byte>, lo: nat, hi: nat, k: nat)
    requires lo <= k < hi <= |data| && data[k] == 0
    requires 0 !in data[lo..k]
    ensures FirstNul(data, lo, hi) == k
    decreases hi - lo
  {
    if lo < k {
      assert data[lo] in data[lo..k];
      assert data[lo..k][1..] == data[lo + 1..k];
      FirstNulAt(data, lo + 1, hi, k);
    }
  }

  lemma CStringExact(data: seq<byte>, offset: nat, maxLength: nat, s: seq<byte>)
    ensures CString(data, offset, maxLength) == Ok(s) <==> TerminatedAt(data, offset, maxLength, s)
  {
    if TerminatedAt(data, offset, maxLength, s) {
      FirstNulAt(data, offset, StringLimit(data, offset, maxLength), offset + |s|);
    }
  }

  function SanitizeChar(c: byte): byte {
    if 0x20 <= c < 0x7F then c else 0x3F
  }

  function SanitizeName(raw: seq<byte>): (out: seq<byte>)
    ensures |out| == |raw|
    ensures forall i :: 0 <= i < |raw| ==> out[i] == SanitizeChar(raw[i])
  {
    if raw == [] then [] else [SanitizeChar(raw[0])] + SanitizeName(raw[1..])
  }

  method Sanitize(raw: seq<byte>) returns (out: seq<byte>)
    ensures out == SanitizeName(raw)
  {
    out := [];
    for i := 0 to |raw|
      invariant |out| == i
      invariant forall j :: 0 <= j < i ==> out[j] == SanitizeChar(raw[j])
    {
      var c := raw[i];
      out := out + [if 0x20 <= c < 0x7F then c else 0x3F];
    }
  }

  /** Names leave the library printable, with a question mark for every byte
      that was not, and cleaning twice changes nothing. */
  lemma SanitizePrintable(raw: seq<byte>)
    ensures |SanitizeName(raw)| == |raw|
    ensures forall i :: 0 <= i < |raw| ==>
              SanitizeName(raw)[i] == if 0x20 <= raw[i] <= 0x7E then raw[i] else '?' as int
    ensures forall c :: c in SanitizeName(raw) ==> 0x20 <= c < 0x7F
    ensures SanitizeName(SanitizeName(raw)) == SanitizeName(raw)
    ensures SanitizeName(raw) == raw <==> forall c :: c in raw ==> 0x20 <= c < 0x7F
  {
    var once := SanitizeName(raw);
    assert forall i :: 0 <= i < |raw| ==> 0x20 <= once[i] < 0x7F;
    assert SanitizeName(once) == once;
    if forall c :: c in raw ==> 0x20 <= c < 0x7F {
      assert forall i :: 0 <= i < |raw| ==> raw[i] in raw;
    }
    if once == raw {
      assert forall c :: c in raw ==> c in once;
    }
  }

  // ----- fields of sub-records and of extended buffers -----

  lemma SliceOfSlice(data: seq<byte>, off: nat, size: nat, at: nat, n: nat)
    requires off + size <= |data| && at + n <= size
    ensures data[off..off + size][at..at + n] == data[off + at..off + at + n]
  {
    var record := data[off..off + size];
    var inner, outer := record[at..at + n], data[off + at..off + at + n];
    forall j | 0 <= j < n
      ensures inner[j] == outer[j]
    {
      assert inner[j] == record[at + j] == data[off + (at + j)];
    }
    assert inner == outer;
  }

  lemma FieldOfRecord(data: seq<byte>, off: nat, size: nat, at: nat, n: nat)
    requires off + size <= |data| && at + n <= size
    ensures Field(data[off..off + size], at, n) == Field(data, off + at, n)
  {
    SliceOfSlice(data, off, size, at, n);
  }

  lemma FieldExtends(d: seq<byte>, e: seq<byte>, at: nat, n: nat)
    requires d <= e && at + n <= |d|
    ensures Field(e, at, n) == Field(d, at, n)
  {
    assert e[at..at + n] == d[at..at + n];
  }

  /** A string that was found stays found, and stays the same, when bytes are appended. */
  lemma CStringExtends(d: seq<byte>, e: seq<byte>, offset: nat, maxLength: nat)
    requires d <= e
    requires CString(d, offset, maxLength).Ok?
    ensures CString(e, offset, maxLength) == CString(d, offset, maxLength)
  {
    var s := CString(d, offset, maxLength).value;
    CStringExact(d, offset, maxLength, s);
    assert e[offset..offset + |s|] == d[offset..offset + |s|];
    CStringExact(e, offset, maxLength, s);
  }

  /** Inside a window that the buffer already holds in full, appending bytes
      changes no outcome, found or not. */
  lemma CStringWindow(d: seq<byte>, e: seq<byte>, offset: nat, maxLength: nat)
    requires d <= e && offset + maxLength <= |d|
    ensures CString(e, offset, maxLength) == CString(d, offset, maxLength)
  {
    if CString(d, offset, maxLength).Ok? {
      CStringExtends(d, e, offset, maxLength);
    }
    if CString(e, offset, maxLength).Ok? {
      var s := CString(e, offset, maxLength).value;
      CStringExact(e, offset, maxLength, s);
      assert e[offset..offset + |s|] == d[offset..offset + |s|];
      CStringExact(d, offset, maxLength, s);
    }
  }

  lemma MulByteStep(p: nat, x: nat)
    ensures 256 * (p * x) == (256 * p) * x
  {
  }

  lemma {:induction false} LeSplit(s: seq<byte>, k: nat)
    requires k <= |s|
    ensures Le(s) == Le(s[..k]) + Pow256(k) * Le(s[k..])
  {
    if k == 0 {
      assert s[0..] == s;
    } else {
      LeSplit(s[1..], k - 1);
      assert s[..k][1..] == s[1..][..k - 1] && s[k..] == s[1..][k - 1..];
      MulByteStep(Pow256(k - 1), Le(s[k..]));
    }
  }

  /** Short fields as sums of their bytes. */
  lemma FieldBytes(d: seq<byte>, at: nat)
    ensures at + 2 <= |d| ==> Field(d, at, 2) == d[at] + 256 * (d[at + 1] as int)
    ensures at + 4 <= |d| ==>
              Field(d, at, 4) == d[at] + 256 * (d[at + 1] as int) + 0x1_0000 * (d[at + 2] as int)
                                 + 0x100_0000 * (d[at + 3] as int)
  {
    if at + 2 <= |d| {
      var s := d[at..at + 2];
      assert s[1..] == [d[at + 1]] && Le(s[1..]) == d[at + 1] + 256 * Le(s[1..][1..]);
    }
    if at + 4 <= |d| {
      var s := d[at..at + 4];
      assert Le(s) == d[at] + 256 * Le(s[1..]);
      assert Le(s[1..]) == d[at + 1] + 256 * Le(s[1..][1..]);
      assert Le(s[1..][1..]) == d[at + 2] + 256 * Le(s[1..][1..][1..]);
      assert s[1..][1..][1..] == [d[at + 3]];
      assert Le([d[at + 3]]) == d[at + 3];
    }
  }

  /** The top bit of an eight-byte field is the top bit of its last byte. */
  lemma TopBitOfField(d: seq<byte>, at: nat)
    requires at + 8 <= |d| && d[at + 7] >= 0x80
    ensures Field(d, at, 8) >= TWO_63
  {
    var s := d[at..at + 8];
    LeSplit(s, 7);
    assert s[7..] == [d[at + 7]];
    assert Le(s[7..]) >= 0x80;
    PowValues();
    assert Pow256(8) == 256 * Pow256(7);
    MulMonotone(Pow256(7), Le(s[7..]), 0x80);
  }

  lemma LeBound(s: seq<byte>)
    ensures |s| == 1 ==> Le(s) < 0x100
    ensures |s| == 2 ==> Le(s) < TWO_16
    ensures |s| == 4 ==> Le(s) < TWO_32
    ensures |s| == 8 ==> Le(s) < TWO_64
  {
    LeLessThanPow(s);
    PowValues();
  }

  lemma PowValues()
    ensures Pow256(1) == 0x100 && Pow256(2) == TWO_16 && Pow256(4) == TWO_32 && Pow256(8) == TWO_64
  {
    assert Pow256(1) == 256 && Pow256(2) == 256 * Pow256(1);
    assert Pow256(3) == 256 * Pow256(2) && Pow256(4) == 256 * Pow256(3);
    assert Pow256(5) == 256 * Pow256(4) && Pow256(6) == 256 * Pow256(5);
    assert Pow256(7) == 256 * Pow256(6) && Pow256(8) == 256 * Pow256(7);
  }

  function Pow256(n: nat): (p: nat)
    ensures p > 0
  {
    if n == 0 then 1 else 256 * Pow256(n - 1)
  }

  lemma {:induction false} LeLessThanPow(s: seq<byte>)
    ensures Le(s) < Pow256(|s|)
  {
    if s != [] {
      LeLessThanPow(s[1..]);
    }
  }
}
