/** What the bit writer writes, the bit reader of the decompressor reads. */
module BitRoundTrip {
  import opened Options
  import opened Bits
  import opened DeflateFormat
  import opened BlockReading
  import W = BitWriters
  import D = RawInflate

  /** A number and how many bits it is written with. */
  datatype Field = Field(value: nat, width: nat)

  ghost predicate Fits(f: Field) {
    0 < f.width <= 15 && f.value < Pow2(f.width)
  }

  ghost function FieldsBits(fields: seq<Field>): seq<bool> {
    if fields == [] then [] else Lsb(fields[0].value, fields[0].width) + FieldsBits(fields[1..])
  }

  lemma {:induction false} FieldsBitsAppend(fields: seq<Field>, f: Field)
    ensures FieldsBits(fields + [f]) == FieldsBits(fields) + Lsb(f.value, f.width)
  {
    if fields == [] {
      assert FieldsBits([f][1..]) == [];
    } else {
      FieldsBitsAppend(fields[1..], f);
      assert (fields + [f])[1..] == fields[1..] + [f];
    }
  }

  /** Writes the numbers, lowest bits first. */
  method WriteFields(fields: seq<Field>) returns (out: seq<byte>, ghost pad: seq<bool>)
    requires forall f :: f in fields ==> Fits(f)
    ensures BytesBits(out) == FieldsBits(fields) + pad
  {
    hide Lsb, Pow2, BytesBits;
    var w := new W.BitWriter();
    for i := 0 to |fields|
      invariant w.Valid() && fresh(w) && fresh(w.buffer)
      invariant w.Written() == FieldsBits(fields[..i])
    {
      FieldsBitsAppend(fields[..i], fields[i]);
      assert fields[..i + 1] == fields[..i] + [fields[i]];
      assert fields[i] in fields;
      w.Write(fields[i].value, fields[i].width, true);
    }
    assert fields[..|fields|] == fields;
    ghost var bits := w.Written();
    out := w.Finish();
    pad := seq(8 * |out| - |bits|, i => false);
  }

  /** Any list of numbers comes back when it is read with the widths it was written with. */
  method WriteThenRead(fields: seq<Field>) returns (back: seq<nat>)
    requires forall f :: f in fields ==> Fits(f)
    ensures |back| == |fields| && forall i :: 0 <= i < |fields| ==> back[i] == fields[i].value
  {
    hide Lsb, Pow2, BytesBits, ReadNumber, D.RawInflate.Rest, D.RawInflate.Index;
    var out; ghost var pad;
    out, pad := WriteFields(fields);
    var reader := new D.RawInflate(out);
    back := [];
    while |back| < |fields|
      invariant |back| <= |fields| && reader.ReaderValid()
      invariant forall i :: 0 <= i < |back| ==> back[i] == fields[i].value
      invariant reader.Rest() == FieldsBits(fields[|back|..]) + pad
    {
      var f := fields[|back|];
      var rest := fields[|back| + 1..];
      assert f in fields && fields[|back|..][1..] == rest && fields[|back|..][0] == f;
      assert reader.Rest() == Lsb(f.value, f.width) + (FieldsBits(rest) + pad);
      ReadNumberOf(f.value, f.width, FieldsBits(rest) + pad);
      var v := reader.ReadBits(f.width);
      back := back + [v.value];
    }
  }
}
