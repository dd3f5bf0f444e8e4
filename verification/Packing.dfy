/** Fixed-layout records as lists of little-endian fields. */
module Packing {
  import opened Base
  import opened Reader
  import opened LittleEndian

  /** A field value and its width in bytes. */
  datatype FieldValue = FieldValue(value: nat, width: nat)

  function Pack(fs: seq<FieldValue>): (b: seq<byte>)
    ensures |b| == Width(fs, |fs|)
  {
    if fs == [] then []
    else
      WidthFromFront(fs, |fs|);
      LeBytes(fs[0].value, fs[0].width) + Pack(fs[1..])
  }

  /** Where field i starts. */
  function Width(fs: seq<FieldValue>, i: nat): nat
    requires i <= |fs|
  {
    if i == 0 then 0 else Width(fs, i - 1) + fs[i - 1].width
  }

  lemma {:induction false} WidthFromFront(fs: seq<FieldValue>, i: nat)
    requires 0 < i <= |fs|
    ensures Width(fs, i) == fs[0].width + Width(fs[1..], i - 1)
  {
    if i > 1 {
      WidthFromFront(fs, i - 1);
    }
  }

  lemma {:induction false} WidthMonotone(fs: seq<FieldValue>, i: nat, j: nat)
    requires i <= j <= |fs|
    ensures Width(fs, i) <= Width(fs, j)
    decreases j
  {
    if i < j {
      WidthMonotone(fs, i, j - 1);
    }
  }

  /** Field i of a packed record reads back. */
  lemma {:induction false} PackedField(fs: seq<FieldValue>, i: nat, at: nat)
    requires i < |fs| && at == Width(fs, i) && fs[i].value < Pow256(fs[i].width)
    ensures Width(fs, i + 1) == at + fs[i].width
    ensures at + fs[i].width <= |Pack(fs)|
    ensures Field(Pack(fs), at, fs[i].width) == fs[i].value
    decreases |fs|
  {
    WidthMonotone(fs, i + 1, |fs|);
    var w, b, head := fs[i].width, Pack(fs), LeBytes(fs[0].value, fs[0].width);
    if i == 0 {
      assert b[0..w] == head;
      LeOfBytes(fs[0].value, w);
    } else {
      var rest := fs[1..];
      WidthFromFront(fs, i);
      PackedField(rest, i - 1, at - fs[0].width);
      var skip, n := fs[0].width, |Pack(rest)|;
      assert b[skip..skip + n] == Pack(rest);
      FieldOfRecord(b, skip, n, at - skip, w);
    }
  }

  /** Field i of the record has the value listed. */
  predicate Holds(fs: seq<FieldValue>, b: seq<byte>, i: nat)
    requires i < |fs|
  {
    Width(fs, i) + fs[i].width <= |b| && Field(b, Width(fs, i), fs[i].width) == fs[i].value
  }

  lemma HoldsInTail(fs: seq<FieldValue>, b: seq<byte>, i: nat)
    requires i + 1 < |fs| && Holds(fs, b, i + 1)
    requires fs[0].width <= |b|
    ensures Holds(fs[1..], b[fs[0].width..], i)
  {
    var rest, skip := fs[1..], fs[0].width;
    WidthFromFront(fs, i + 1);
    assert rest[i] == fs[i + 1];
    assert b[skip..skip + (|b| - skip)] == b[skip..];
    FieldOfRecord(b, skip, |b| - skip, Width(rest, i), rest[i].width);
  }

  /** A record whose fields have these values is the packed record. */
  lemma {:induction false} PackInverse(fs: seq<FieldValue>, b: seq<byte>)
    requires |b| == Width(fs, |fs|)
    requires forall i :: 0 <= i < |fs| ==> Holds(fs, b, i)
    ensures Pack(fs) == b
    decreases |fs|
  {
    if fs != [] {
      var rest, w := fs[1..], fs[0].width;
      WidthFromFront(fs, |fs|);
      assert Holds(fs, b, 0);
      forall i | 0 <= i < |rest|
        ensures Holds(rest, b[w..], i)
      {
        HoldsInTail(fs, b, i);
      }
      PackInverse(rest, b[w..]);
      assert b[0..w] + b[w..] == b;
      BytesOfLe(b[0..w]);
    }
  }

  /** Every value fits its field. */
  predicate Fits(fs: seq<FieldValue>) {
    forall i :: 0 <= i < |fs| ==> fs[i].value < Pow256(fs[i].width)
  }

  // ----- arrays of one width -----

  /** An array of equally wide integers. */
  function Words(values: seq<nat>, width: nat): (fs: seq<FieldValue>)
    ensures |fs| == |values|
  {
    seq(|values|, i requires 0 <= i < |values| => FieldValue(values[i], width))
  }

  lemma {:induction false} WordStart(values: seq<nat>, width: nat, i: nat)
    requires i <= |values|
    ensures Width(Words(values, width), i) == width * i
  {
    if i > 0 {
      WordStart(values, width, i - 1);
      assert width * i == width * (i - 1) + width;
    }
  }

  /** Element i of a written array reads back at its place in any buffer that
      holds the array. */
  lemma WordReads(d: seq<byte>, at: nat, values: seq<nat>, width: nat, i: nat)
    requires at + width * |values| <= |d|
    requires i < |values| && values[i] < Pow256(width)
    requires d[at..at + width * |values|] == Pack(Words(values, width))
    ensures 0 <= width * i && at + width * i + width <= |d|
    ensures Field(d, at + width * i, width) == values[i]
  {
    hide Le, LeBytes, Pack;
    var fs := Words(values, width);
    WordStart(values, width, i);
    WordStart(values, width, |values|);
    PackedField(fs, i, width * i);
    FieldOfRecord(d, at, width * |values|, width * i, width);
  }
}
