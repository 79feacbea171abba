/**
  Whole messages: how callers combine the macros. A sender adds up the lengths, allocates that much and
  writes the fields one after the other; a receiver reads them one after the other.
*/
module Messages {
  import opened Options
  import opened Bytes
  import opened Codec
  import opened Serialize
  import opened Vectors
  import VectorModel

  method SerializeField(buffer: array<Byte>, at: nat, f: Field) returns (offset: nat)
    requires at + |Encode(f)| <= buffer.Length
    modifies buffer
    ensures offset == |Encode(f)| && buffer[..] == Overlay(old(buffer[..]), at, Encode(f))
  {
    match f
    case UInt64Field(u) => offset := SerializeUInt64(buffer, at, u);
    case IntField(i) => offset := SerializeInt(buffer, at, i);
    case ShortField(s) => offset := SerializeShort(buffer, at, s);
    case DoubleField(bits) => offset := SerializeDouble(buffer, at, bits);
    case CharField(c) => offset := SerializeChar(buffer, at, c);
    case ValueField(b) => offset := SerializeValue(buffer, at, b);
    case StrField(t) => offset := SerializeStr(buffer, at, t, StrLen(t));
    case VectorField(ws) => offset := SerializeBlock(buffer, at, WordBytes(ws), VectorLen(ws));
  }

  /** Writes stay inside the part of the buffer that the fields' encodings take up. */
  method SerializeAll(buffer: array<Byte>, at: nat, fs: seq<Field>) returns (offset: nat)
    requires at + |EncodeAll(fs)| <= buffer.Length
    modifies buffer
    ensures offset == |EncodeAll(fs)| && buffer[..] == Overlay(old(buffer[..]), at, EncodeAll(fs))
    decreases |fs|
  {
    offset := 0;
    if fs != [] {
      assert EncodeAll(fs) == Encode(fs[0]) + EncodeAll(fs[1..]);
      hide Encode, EncodeAll, Overlay;
      ghost var b := buffer[..];
      var first := SerializeField(buffer, at, fs[0]);
      var rest := SerializeAll(buffer, at + first, fs[1..]);
      OverlayTwice(b, at, Encode(fs[0]), EncodeAll(fs[1..]));
      offset := first + rest;
    }
  }

  /** A buffer of exactly the prepared length takes the message and is filled by it. */
  method Send(fs: seq<Field>) returns (buffer: array<Byte>)
    requires TrueSizeAll(fs) < TWO_32
    ensures fresh(buffer) && buffer[..] == EncodeAll(fs)
  {
    PrepareExact(fs);
    buffer := new Byte[PrepareAll(0, fs)];
    var offset := SerializeAll(buffer, 0, fs);
  }

  method DeserializeField(buffer: array<Byte>, at: nat, k: Kind) returns (f: Field, offset: nat)
    requires at <= buffer.Length && Readable(k, buffer[at..])
    ensures (f, offset) == Decode(k, buffer[at..])
  {
    match k
    case UInt64Kind => var v; v, offset := DeserializeUInt64(buffer, at); f := UInt64Field(v);
    case IntKind => var v; v, offset := DeserializeInt(buffer, at); f := IntField(v);
    case ShortKind => var v; v, offset := DeserializeShort(buffer, at); f := ShortField(v);
    case DoubleKind => var v; v, offset := DeserializeDouble(buffer, at); f := DoubleField(v);
    case CharKind => var v; v, offset := DeserializeChar(buffer, at); f := CharField(v);
    case ValueKind(n) => var v; v, offset := DeserializeValue(buffer, at, n); f := ValueField(v);
    case StrKind =>
      var block, _, n := DeserializeStr(buffer, at);
      f, offset := StrField(if block.Some? then Some(UpToNul(block.value)) else None), n;
    case VectorKind =>
      var vector := new Vector<UInt64>();
      var _, n := DeserializeVector(buffer, at, vector);
      assert vector.Items() == Decode(VectorKind, buffer[at..]).0.words;
      f, offset := VectorField(if vector.values == null then [] else vector.values[..vector.valuesNum]), n;
  }

  lemma DecodeAllFirst(ks: seq<Kind>, b: seq<Byte>)
    requires ks != [] && DecodeAll(ks, b).Some?
    ensures Readable(ks[0], b) && Decode(ks[0], b).1 <= |b|
    ensures var (f, n) := Decode(ks[0], b);
            var m := DecodeAll(ks[1..], b[n..]);
            m.Some? && DecodeAll(ks, b) == Some(Message([f] + m.value.fields, m.value.rest))
  {
    hide DecodeValue, Length;
  }

  method DeserializeAll(buffer: array<Byte>, at: nat, ks: seq<Kind>) returns (fs: seq<Field>, end: nat)
    requires at <= buffer.Length && DecodeAll(ks, buffer[at..]).Some?
    ensures end <= buffer.Length
    ensures DecodeAll(ks, buffer[at..]) == Some(Message(fs, buffer[end..]))
    decreases |ks|
  {
    fs, end := [], at;
    if ks != [] {
      hide *;
      ghost var b := buffer[at..];
      DecodeAllFirst(ks, b);
      var f, offset := DeserializeField(buffer, at, ks[0]);
      assert buffer[at..] == b && (f, offset) == Decode(ks[0], b);
      DropTwice(buffer[..], at, offset);
      assert buffer[at + offset..] == b[offset..];
      var more;
      more, end := DeserializeAll(buffer, at + offset, ks[1..]);
      assert DecodeAll(ks[1..], b[offset..]) == Some(Message(more, buffer[end..]));
      assert buffer[at..] == b;
      fs := [f] + more;
    }
  }

  lemma DropTwice(b: seq<Byte>, at: nat, n: nat)
    requires at + n <= |b|
    ensures b[at..][n..] == b[at + n..]
  {
  }

  /** Sent and received: the same fields, from all bytes of the buffer. */
  method Exchange(fs: seq<Field>) returns (gs: seq<Field>)
    requires TrueSizeAll(fs) < TWO_32
    ensures gs == fs
  {
    PrepareExact(fs);
    MessageRoundTrip(fs, []);
    var buffer := Send(fs);
    assert buffer[0..] == EncodeAll(fs) + [];
    var end;
    gs, end := DeserializeAll(buffer, 0, KindsOf(fs));
  }

  /** A vector message holds one word for every eight bytes of its length. */
  lemma VectorMessage(words: seq<UInt64>, rest: seq<Byte>)
    requires Fits(VectorField(words))
    ensures var b := Encode(VectorField(words)) + rest;
            Readable(VectorKind, b) && Length(b) / 8 == |words| && Decode(VectorKind, b).0 == VectorField(words)
  {
    hide LeBytes, LeValue, WordBytes, Frame;
    FieldRoundTrip(VectorField(words), rest);
  }

  /** The first of several vector messages, and what follows it. */
  lemma FirstVector(vss: seq<seq<UInt64>>, rest: seq<Byte>)
    requires vss != [] && AllFit(VectorFields(vss))
    ensures var b := EncodeAll(VectorFields(vss)) + rest;
            && Readable(VectorKind, b) && Length(b) / 8 == |vss[0]|
            && var (f, n) := Decode(VectorKind, b);
               f == VectorField(vss[0]) && n <= |b| && b[n..] == EncodeAll(VectorFields(vss[1..])) + rest
    ensures AllFit(VectorFields(vss[1..]))
  {
    var fs, f := VectorFields(vss), VectorField(vss[0]);
    assert Encode(f) + EncodeAll(fs[1..]) == EncodeAll(fs) && Fits(f) && AllFit(fs[1..]);
    assert fs[1..] == VectorFields(vss[1..]);
    hide *;
    var b, tail := EncodeAll(fs) + rest, EncodeAll(fs[1..]) + rest;
    Regroup(Encode(f), EncodeAll(fs[1..]), rest);
    assert b == Encode(f) + tail;
    FieldRoundTrip(f, tail);
    VectorMessage(vss[0], tail);
  }

  lemma Regroup(first: seq<Byte>, more: seq<Byte>, rest: seq<Byte>)
    ensures first + more + rest == first + (more + rest)
    ensures (first + (more + rest))[|first|..] == more + rest
  {
  }

  /** Reading vector messages into one vector appends their elements in order, empty ones included. */
  method DeserializeVectors(buffer: array<Byte>, at: nat, k: nat, vector: Vector<UInt64>,
                            ghost vss: seq<seq<UInt64>>, ghost rest: seq<Byte>)
    returns (end: nat)
    requires at <= buffer.Length && k == |vss| && AllFit(VectorFields(vss))
    requires buffer[at..] == EncodeAll(VectorFields(vss)) + rest
    requires vector.Valid() && vector.ready && |vector.Items()| + |Flatten(vss)| <= VectorModel.INT_MAX
    requires buffer as object !in vector.Repr()
    modifies vector.Repr()
    ensures vector.Valid() && vector.ready && fresh(vector.Repr() - old(vector.Repr()))
    ensures vector.Items() == old(vector.Items()) + Flatten(vss)
    ensures end <= buffer.Length && buffer[end..] == rest
    decreases k
  {
    end := at;
    if k > 0 {
      hide *;
      ghost var items := vector.Items();
      FirstVector(vss, rest);
      FlattenOnto(items, vss);
      var offset := DeserializeFirst(buffer, at, vector, vss, rest);
      assert vector.Items() == items + vss[0];
      assert buffer as object !in vector.Repr();
      assert buffer[at + offset..] == EncodeAll(VectorFields(vss[1..])) + rest;
      end := DeserializeVectors(buffer, at + offset, k - 1, vector, vss[1..], rest);
      assert vector.Items() == items + vss[0] + Flatten(vss[1..]);
    }
  }

  method DeserializeFirst(buffer: array<Byte>, at: nat, vector: Vector<UInt64>,
                          ghost vss: seq<seq<UInt64>>, ghost rest: seq<Byte>)
    returns (offset: nat)
    requires at <= buffer.Length && vss != [] && AllFit(VectorFields(vss))
    requires buffer[at..] == EncodeAll(VectorFields(vss)) + rest
    requires vector.Valid() && vector.ready && |vector.Items()| + |vss[0]| <= VectorModel.INT_MAX
    requires buffer as object !in vector.Repr()
    modifies vector.Repr()
    ensures vector.Valid() && vector.ready && fresh(vector.Repr() - old(vector.Repr()))
    ensures vector.Items() == old(vector.Items()) + vss[0]
    ensures at + offset <= buffer.Length
    ensures buffer[at + offset..] == EncodeAll(VectorFields(vss[1..])) + rest
  {
    hide Encode, EncodeAll, VectorFields, AllFit, Decode, DecodeValue, Readable, Length, Vector.Items;
    FirstVector(vss, rest);
    ghost var b := buffer[at..];
    var _, n := DeserializeVector(buffer, at, vector);
    offset := n;
    assert buffer[at..] == b && buffer[at + offset..] == b[offset..];
  }

  lemma FlattenOnto(items: seq<UInt64>, vss: seq<seq<UInt64>>)
    requires vss != []
    ensures items + vss[0] + Flatten(vss[1..]) == items + Flatten(vss)
    ensures |Flatten(vss)| == |vss[0]| + |Flatten(vss[1..])|
  {
  }
}
