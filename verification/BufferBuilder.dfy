/** The little-endian writer of the test fixtures, and the proof that the
    reader of the parsers undoes it over whole runs of writes. */
module LittleEndian {
  import opened Base
  import opened Reader

  /** The n low-order bytes of v, least significant first. */
  function LeBytes(v: nat, n: nat): (s: seq<byte>)
    ensures |s| == n
  {
    if n == 0 then [] else [v % 256] + LeBytes(v / 256, n - 1)
  }

  function ZeroBytes(count: nat): (z: seq<byte>)
    ensures |z| == count && forall i :: 0 <= i < count ==> z[i] == 0
  {
    seq(count, _ => 0)
  }

  lemma {:induction false} LeOfBytes(v: nat, n: nat)
    ensures Le(LeBytes(v, n)) == v % Pow256(n)
    ensures v < Pow256(n) ==> Le(LeBytes(v, n)) == v
  {
    if n > 0 {
      LeOfBytes(v / 256, n - 1);
      assert LeBytes(v, n)[1..] == LeBytes(v / 256, n - 1);
      DigitSplit(v, Pow256(n - 1));
    }
  }

  lemma DigitSplit(v: nat, p: nat)
    requires p > 0
    ensures v % (256 * p) == v % 256 + 256 * ((v / 256) % p)
  {
    var q, r := (v / 256) / p, (v / 256) % p;
    assert v / 256 == q * p + r;
    var low := v % 256 + 256 * r;
    assert v == 256 * (q * p + r) + v % 256;
    assert 256 * (q * p) == (256 * p) * q;
    assert v == (256 * p) * q + low;
    assert 0 <= low < 256 * p;
    DivModUnique(v, 256 * p, q, low);
  }

  /** Every byte string is the encoding of its own value. */
  lemma {:induction false} BytesOfLe(s: seq<byte>)
    ensures LeBytes(Le(s), |s|) == s
  {
    if s != [] {
      BytesOfLe(s[1..]);
      assert Le(s) / 256 == Le(s[1..]);
    }
  }

  lemma DivDiv(v: nat, p: nat)
    requires p > 0
    ensures (v / p) / 256 == v / (256 * p)
  {
    var q, r := v / p, v % p;
    var q', d := q / 256, q % 256;
    Regroup(p, q', d);
    MulMonotone(p, 255, d);
    DivModUnique(v, 256 * p, q', p * d + r);
  }

  lemma Regroup(p: nat, a: nat, b: nat)
    ensures p * (256 * a + b) == (256 * p) * a + p * b
    ensures 0 <= p * b
  {
    assert p * (256 * a + b) == p * (256 * a) + p * b;
    MulMonotone(p, b, 0);
  }
}

module Builder {
  import opened Base
  import opened Reader
  import opened LittleEndian

  /** One call on a builder. Mutate overwrites in place, everything else appends. */
  datatype Op =
    | Write(value: nat, width: nat)
    | Raw(bytes: seq<byte>)
    | CStr(text: seq<byte>)
    | Zeros(count: nat)
    | Seek(position: nat)
    | Mutate(offset: nat, value: nat, width: nat)

  /** Overwriting outside the vector is undefined in the source. */
  predicate Defined(buf: seq<byte>, op: Op) {
    op.Mutate? ==> op.offset + op.width <= |buf|
  }

  function Apply(buf: seq<byte>, op: Op): (after: seq<byte>)
    requires Defined(buf, op)
    ensures |buf| <= |after|
    ensures op.Mutate? ==> |after| == |buf|
    ensures !op.Mutate? ==> buf <= after
  {
    match op
    case Write(v, n) => buf + LeBytes(v, n)
    case Raw(bytes) => buf + bytes
    case CStr(text) => buf + text + [0]
    case Zeros(count) => buf + ZeroBytes(count)
    case Seek(position) => if |buf| < position then buf + ZeroBytes(position - |buf|) else buf
    case Mutate(offset, v, n) => buf[..offset] + LeBytes(v, n) + buf[offset + n..]
  }

  class BufferBuilder {
    var buf: seq<byte>

    constructor ()
      ensures buf == []
    {
      buf := [];
    }

    method U8(value: nat)
      requires value < 0x100
      modifies this
      ensures buf == Apply(old(buf), Write(value, 1))
    {
      buf := buf + [value];
    }

    method U16(value: nat)
      requires value < TWO_16
      modifies this
      ensures buf == Apply(old(buf), Write(value, 2))
    {
      buf := buf + [value % 256];
      buf := buf + [(value / 256) % 256];
      LeBytesSnoc(value, 0);
      LeBytesSnoc(value, 1);
      PowValues();
    }

    method U32(value: nat)
      requires value < TWO_32
      modifies this
      ensures buf == Apply(old(buf), Write(value, 4))
    {
      buf := buf + [value % 256];
      buf := buf + [(value / 0x100) % 256];
      buf := buf + [(value / 0x1_0000) % 256];
      buf := buf + [(value / 0x100_0000) % 256];
      FourBytes(value);
    }

    method U64(value: nat)
      requires value < TWO_64
      modifies this
      ensures buf == Apply(old(buf), Write(value, 8))
    {
      for i := 0 to 8
        invariant buf == old(buf) + LeBytes(value, i)
      {
        buf := buf + [(value / Pow256(i)) % 256];
        LeBytesSnoc(value, i);
      }
    }

    method Raw(bytes: seq<byte>)
      modifies this
      ensures buf == Apply(old(buf), Op.Raw(bytes))
    {
      for i := 0 to |bytes|
        invariant buf == old(buf) + bytes[..i]
      {
        buf := buf + [bytes[i]];
      }
    }

    method CStr(text: seq<byte>)
      modifies this
      ensures buf == Apply(old(buf), Op.CStr(text))
    {
      Raw(text);
      buf := buf + [0];
    }

    method Zeros(count: nat)
      modifies this
      ensures buf == Apply(old(buf), Op.Zeros(count))
    {
      buf := buf + ZeroBytes(count);
    }

    method Seek(position: nat)
      modifies this
      ensures buf == Apply(old(buf), Op.Seek(position))
    {
      if |buf| < position {
        Zeros(position - |buf|);
      }
    }

    method MutateU32(offset: nat, value: nat)
      requires value < TWO_32 && offset + 4 <= |buf|
      modifies this
      ensures buf == Apply(old(buf), Mutate(offset, value, 4))
    {
      buf := buf[offset := value % 256];
      buf := buf[offset + 1 := (value / 0x100) % 256];
      buf := buf[offset + 2 := (value / 0x1_0000) % 256];
      buf := buf[offset + 3 := (value / 0x100_0000) % 256];
      FourBytes(value);
    }

    method MutateU64(offset: nat, value: nat)
      requires value < TWO_64 && offset + 8 <= |buf|
      modifies this
      ensures buf == Apply(old(buf), Mutate(offset, value, 8))
    {
      for i := 0 to 8
        invariant buf == old(buf)[..offset] + LeBytes(value, i) + old(buf)[offset + i..]
      {
        ghost var before := buf;
        buf := buf[offset + i := (value / Pow256(i)) % 256];
        LeBytesSnoc(value, i);
        PatchStep(old(buf), offset, LeBytes(value, i), (value / Pow256(i)) % 256, before, buf);
      }
    }

    method Pos() returns (p: nat)
      ensures p == |buf|
    {
      p := |buf|;
    }

    method Take() returns (bytes: seq<byte>)
      modifies this
      ensures bytes == old(buf) && buf == []
    {
      bytes := buf;
      buf := [];
    }
  }

  /** Overwriting the byte behind an already patched part extends that part. */
  lemma PatchStep(start: seq<byte>, offset: nat, done: seq<byte>, b: byte, before: seq<byte>, after: seq<byte>)
    requires offset + |done| < |start|
    requires before == start[..offset] + done + start[offset + |done|..]
    requires after == before[offset + |done| := b]
    ensures after == start[..offset] + (done + [b]) + start[offset + |done| + 1..]
  {
  }

  lemma {:induction false} LeBytesSnoc(v: nat, n: nat)
    ensures LeBytes(v, n + 1) == LeBytes(v, n) + [(v / Pow256(n)) % 256]
  {
    if n > 0 {
      LeBytesSnoc(v / 256, n - 1);
      ShiftCommutes(v, n - 1);
      assert [v % 256] + (LeBytes(v / 256, n - 1) + [(v / Pow256(n)) % 256])
          == ([v % 256] + LeBytes(v / 256, n - 1)) + [(v / Pow256(n)) % 256];
    }
  }

  lemma {:induction false} ShiftCommutes(v: nat, i: nat)
    ensures (v / 256) / Pow256(i) == v / Pow256(i + 1)
  {
    if i > 0 {
      ShiftCommutes(v, i - 1);
      DivDiv(v / 256, Pow256(i - 1));
      DivDiv(v, Pow256(i));
    }
  }

  lemma FourBytes(v: nat)
    ensures LeBytes(v, 4) == [v % 256, (v / 0x100) % 256, (v / 0x1_0000) % 256, (v / 0x100_0000) % 256]
  {
    LeBytesSnoc(v, 0);
    LeBytesSnoc(v, 1);
    LeBytesSnoc(v, 2);
    LeBytesSnoc(v, 3);
    PowValues();
    assert Pow256(3) == 256 * Pow256(2);
  }

  // ----- whole runs -----

  /** The buffer after a run of calls; None when some call is undefined. */
  function Run(start: seq<byte>, ops: seq<Op>): Option<seq<byte>> {
    if ops == [] then Some(start)
    else
      var last := |ops| - 1;
      match Run(start, ops[..last])
      case None => None
      case Some(buf) => if Defined(buf, ops[last]) then Some(Apply(buf, ops[last])) else None
  }

  predicate Overwrites(op: Op, at: nat, width: nat) {
    op.Mutate? && op.offset < at + width && at < op.offset + op.width
  }

  lemma ApplyKeeps(buf: seq<byte>, op: Op, at: nat, width: nat)
    requires Defined(buf, op) && !Overwrites(op, at, width) && at + width <= |buf|
    ensures Apply(buf, op)[at..at + width] == buf[at..at + width]
  {
  }

  /** Bytes in place after k calls are still there at the end, unless a later
      in-place write overlaps them. */
  lemma {:induction false} BytesStay(start: seq<byte>, ops: seq<Op>, k: nat, at: nat, width: nat)
    requires k <= |ops| && Run(start, ops).Some?
    requires forall j :: k <= j < |ops| ==> !Overwrites(ops[j], at, width)
    ensures Run(start, ops[..k]).Some?
    ensures var early := Run(start, ops[..k]).value;
            var late := Run(start, ops).value;
            at + width <= |early| ==> at + width <= |late| && late[at..at + width] == early[at..at + width]
  {
    hide Apply, Overwrites;
    if k < |ops| {
      var last := |ops| - 1;
      BytesStay(start, ops[..last], k, at, width);
      assert ops[..last][..k] == ops[..k];
      var early, late := Run(start, ops[..k]).value, Run(start, ops[..last]).value;
      if at + width <= |early| {
        ApplyKeeps(late, ops[last], at, width);
      }
    } else {
      assert ops[..k] == ops;
    }
  }

  lemma RunStep(start: seq<byte>, ops: seq<Op>, k: nat)
    requires k < |ops| && Run(start, ops[..k + 1]).Some?
    ensures Run(start, ops[..k]).Some? && Defined(Run(start, ops[..k]).value, ops[k])
    ensures Run(start, ops[..k + 1]).value == Apply(Run(start, ops[..k]).value, ops[k])
  {
    assert ops[..k + 1][..k] == ops[..k];
  }

  /** Where call k of a run leaves its bytes. */
  function Position(start: seq<byte>, ops: seq<Op>, k: nat): nat
    requires k < |ops| && Run(start, ops[..k]).Some?
  {
    if ops[k].Mutate? then ops[k].offset else |Run(start, ops[..k]).value|
  }

  /** What a single call leaves at its position. */
  lemma AppliedBytes(buf: seq<byte>, op: Op)
    requires Defined(buf, op)
    ensures op.Write? ==> |buf| + op.width <= |Apply(buf, op)| &&
                          Apply(buf, op)[|buf|..|buf| + op.width] == LeBytes(op.value, op.width)
    ensures op.Mutate? ==> Apply(buf, op)[op.offset..op.offset + op.width] == LeBytes(op.value, op.width)
    ensures op.CStr? ==> |buf| + (|op.text| + 1) <= |Apply(buf, op)| &&
                         Apply(buf, op)[|buf|..|buf| + (|op.text| + 1)] == op.text + [0]
    ensures op.Raw? ==> |Apply(buf, op)| == |buf| + |op.bytes| && Apply(buf, op)[|buf|..] == op.bytes
    ensures op.Zeros? ==> |Apply(buf, op)| == |buf| + op.count &&
                          forall i :: |buf| <= i < |buf| + op.count ==> Apply(buf, op)[i] == 0
  {
  }

  /** Whatever a run does later, the reader returns the last integer written
      at a position, appended or patched in. */
  lemma IntegerReadsBack(start: seq<byte>, ops: seq<Op>, k: nat)
    requires k < |ops| && Run(start, ops).Some?
    requires ops[k].Write? || ops[k].Mutate?
    requires ops[k].value < Pow256(ops[k].width)
    requires Run(start, ops[..k]).Some?
    requires forall j :: k < j < |ops| ==> !Overwrites(ops[j], Position(start, ops, k), ops[k].width)
    ensures ReadLe(Run(start, ops).value, Position(start, ops, k), ops[k].width) == Ok(ops[k].value)
  {
    hide Le, LeBytes, Run, Apply;
    var at, w, v := Position(start, ops, k), ops[k].width, ops[k].value;
    BytesStay(start, ops, k + 1, at, w);
    RunStep(start, ops, k);
    AppliedBytes(Run(start, ops[..k]).value, ops[k]);
    LeOfBytes(v, w);
  }

  /** The same for strings: a NUL-free string written by CStr is what a
      bounded string read returns, for every bound above its length. */
  lemma StringReadsBack(start: seq<byte>, ops: seq<Op>, k: nat, maxLength: nat)
    requires k < |ops| && Run(start, ops).Some?
    requires ops[k].CStr? && 0 !in ops[k].text && |ops[k].text| < maxLength
    requires Run(start, ops[..k]).Some?
    requires forall j :: k < j < |ops| ==>
                           !Overwrites(ops[j], Position(start, ops, k), |ops[k].text| + 1)
    ensures CString(Run(start, ops).value, Position(start, ops, k), maxLength) == Ok(ops[k].text)
  {
    hide Run, Apply, CString;
    var at, t := Position(start, ops, k), ops[k].text;
    BytesStay(start, ops, k + 1, at, |t| + 1);
    RunStep(start, ops, k);
    AppliedBytes(Run(start, ops[..k]).value, ops[k]);
    StringInPlace(Run(start, ops).value, at, t, maxLength);
  }

  lemma StringInPlace(d: seq<byte>, at: nat, t: seq<byte>, maxLength: nat)
    requires at + (|t| + 1) <= |d| && d[at..at + (|t| + 1)] == t + [0]
    requires 0 !in t && |t| < maxLength
    ensures CString(d, at, maxLength) == Ok(t)
  {
    hide CString;
    SliceOfSlice(d, at, |t| + 1, 0, |t|);
    assert (t + [0])[0..|t|] == t;
    assert d[at + |t|] == (t + [0])[|t|];
    CStringExact(d, at, maxLength, t);
  }

  /** Padding never disturbs what is there and ends exactly at the position
      asked for, or does nothing; a patch changes exactly its own bytes. */
  lemma SeekAndPatchFrames(buf: seq<byte>, position: nat, offset: nat, v: nat, n: nat)
    requires offset + n <= |buf|
    ensures var s := Apply(buf, Seek(position));
            buf <= s && |s| == (if |buf| < position then position else |buf|) &&
            forall i :: |buf| <= i < |s| ==> s[i] == 0
    ensures var p := Apply(buf, Mutate(offset, v, n));
            |p| == |buf| && (forall i :: 0 <= i < |buf| && !(offset <= i < offset + n) ==> p[i] == buf[i]) &&
            Field(p, offset, n) == v % Pow256(n)
  {
    var p := Apply(buf, Mutate(offset, v, n));
    assert p[offset..offset + n] == LeBytes(v, n);
    LeOfBytes(v, n);
  }
}
