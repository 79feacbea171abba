/**
  The serialization macros: length pre-pass, writers into a byte buffer, readers from one. Each macro
  works on the buffer from an offset on and returns by how much to advance.
*/
module Serialize {
  import opened Options
  import opened Bytes
  import opened Codec
  import opened Vectors
  import VectorModel

  // ----- the length pre-pass

  method PrepareStr(len: UInt32, text: Option<CString>) returns (len': UInt32, strLen: UInt32)
    ensures strLen == StrLen(text) && len' == Prepare(len, StrField(text))
  {
    strLen := if text.Some? then ToUInt32(ToUInt32(|text.value|) + 1) else 0;
    len' := ToUInt32(len + ToUInt32(strLen + 4));
  }

  method PrepareVector(len: UInt32, vector: Vector<UInt64>) returns (len': UInt32, vectorLen: UInt32)
    requires vector.Valid()
    ensures vectorLen == VectorLen(vector.Items()) && len' == Prepare(len, VectorField(vector.Items()))
  {
    vectorLen := ToUInt32(ToUInt32(vector.valuesNum) * 8);
    len' := ToUInt32(len + ToUInt32(vectorLen + 4));
  }

  method PrepareValue(len: UInt32, size: nat) returns (len': UInt32)
    ensures forall f: Field :: !f.StrField? && !f.VectorField? && |Encode(f)| == size ==> len' == Prepare(len, f)
  {
    len' := ToUInt32(len + ToUInt32(size));
  }

  // ----- writers

  /** `b` with `bytes` in place of what it has at `at`. */
  function Overlay(b: seq<Byte>, at: nat, bytes: seq<Byte>): seq<Byte>
    requires at + |bytes| <= |b|
  {
    b[..at] + bytes + b[at + |bytes|..]
  }

  lemma OverlayIs(b: seq<Byte>, at: nat, bytes: seq<Byte>)
    requires at + |bytes| <= |b|
    ensures var o := Overlay(b, at, bytes);
            |o| == |b| && forall i :: 0 <= i < |b| ==> o[i] == if at <= i < at + |bytes| then bytes[i - at] else b[i]
  {
  }

  /** memcpy into the buffer. */
  method PutBytes(buffer: array<Byte>, at: nat, bytes: seq<Byte>)
    requires at + |bytes| <= buffer.Length
    modifies buffer
    ensures buffer[..] == Overlay(old(buffer[..]), at, bytes)
  {
    forall i | 0 <= i < |bytes| {
      buffer[at + i] := bytes[i];
    }
  }

  method SerializeUInt64(buffer: array<Byte>, at: nat, value: UInt64) returns (offset: nat)
    requires at + |Encode(UInt64Field(value))| <= buffer.Length
    modifies buffer
    ensures offset == 8 && buffer[..] == Overlay(old(buffer[..]), at, Encode(UInt64Field(value)))
  {
    PutBytes(buffer, at, LeBytes(8, value));
    offset := 8;
  }

  method SerializeInt(buffer: array<Byte>, at: nat, value: Int32) returns (offset: nat)
    requires at + |Encode(IntField(value))| <= buffer.Length
    modifies buffer
    ensures offset == 4 && buffer[..] == Overlay(old(buffer[..]), at, Encode(IntField(value)))
  {
    PutBytes(buffer, at, LeBytes(4, Unsigned(TWO_32, value)));
    offset := 4;
  }

  method SerializeShort(buffer: array<Byte>, at: nat, value: Int16) returns (offset: nat)
    requires at + |Encode(ShortField(value))| <= buffer.Length
    modifies buffer
    ensures offset == 2 && buffer[..] == Overlay(old(buffer[..]), at, Encode(ShortField(value)))
  {
    PutBytes(buffer, at, LeBytes(2, Unsigned(0x1_0000, value)));
    offset := 2;
  }

  method SerializeDouble(buffer: array<Byte>, at: nat, bits: UInt64) returns (offset: nat)
    requires at + |Encode(DoubleField(bits))| <= buffer.Length
    modifies buffer
    ensures offset == 8 && buffer[..] == Overlay(old(buffer[..]), at, Encode(DoubleField(bits)))
  {
    PutBytes(buffer, at, LeBytes(8, bits));
    offset := 8;
  }

  method SerializeChar(buffer: array<Byte>, at: nat, value: Byte) returns (offset: nat)
    requires at + |Encode(CharField(value))| <= buffer.Length
    modifies buffer
    ensures offset == 1 && buffer[..] == Overlay(old(buffer[..]), at, Encode(CharField(value)))
  {
    buffer[at] := value;
    offset := 1;
  }

  method SerializeValue(buffer: array<Byte>, at: nat, value: seq<Byte>) returns (offset: nat)
    requires at + |value| <= buffer.Length
    modifies buffer
    ensures offset == |value| && buffer[..] == Overlay(old(buffer[..]), at, value)
  {
    PutBytes(buffer, at, value);
    offset := |value|;
  }

  method SerializeNull(buffer: array<Byte>, at: nat) returns (offset: nat)
    requires at + 4 <= buffer.Length
    modifies buffer
    ensures offset == 4 && buffer[..] == Overlay(old(buffer[..]), at, [0, 0, 0, 0])
  {
    PutBytes(buffer, at, [0, 0, 0, 0]);
    offset := 4;
  }

  /** The part that strings and vectors share: the prefix, then `len` bytes from where `payload` starts. */
  method SerializeBlock(buffer: array<Byte>, at: nat, payload: seq<Byte>, len: UInt32) returns (offset: nat)
    requires len <= |payload| && at + 4 + len <= buffer.Length
    modifies buffer
    ensures offset == 4 + len && buffer[..] == Overlay(old(buffer[..]), at, Frame(len, payload))
  {
    if 0 == len {
      offset := SerializeNull(buffer, at);
    } else {
      ghost var b := buffer[..];
      PutBytes(buffer, at, LeBytes(4, len));
      PutBytes(buffer, at + 4, payload[..len]);
      OverlayTwice(b, at, LeBytes(4, len), payload[..len]);
      offset := len + 4;
    }
  }

  lemma OverlayTwice(b: seq<Byte>, at: nat, first: seq<Byte>, second: seq<Byte>)
    requires at + |first| + |second| <= |b|
    ensures Overlay(Overlay(b, at, first), at + |first|, second) == Overlay(b, at, first + second)
  {
  }

  method SerializeStr(buffer: array<Byte>, at: nat, text: Option<CString>, len: UInt32) returns (offset: nat)
    requires len <= |Payload(text)| && at + 4 + len <= buffer.Length
    modifies buffer
    ensures offset == 4 + len && buffer[..] == Overlay(old(buffer[..]), at, Frame(len, Payload(text)))
  {
    offset := SerializeBlock(buffer, at, if text.Some? then text.value + [0] else [], len);
  }

  method SerializeVector(buffer: array<Byte>, at: nat, vector: Vector<UInt64>, len: UInt32) returns (offset: nat)
    requires vector.Valid() && len <= 8 * |vector.Items()| && at + 4 + len <= buffer.Length
    modifies buffer
    ensures offset == 4 + len && buffer[..] == Overlay(old(buffer[..]), at, Frame(len, WordBytes(vector.Items())))
  {
    var words: seq<UInt64> := [];
    if vector.values != null {
      words := vector.values[..vector.valuesNum];
    }
    offset := SerializeBlock(buffer, at, WordBytes(words), len);
  }

  // ----- readers

  method DeserializeUInt64(buffer: array<Byte>, at: nat) returns (value: UInt64, offset: nat)
    requires at <= buffer.Length && Readable(UInt64Kind, buffer[at..])
    ensures (UInt64Field(value), offset) == Decode(UInt64Kind, buffer[at..])
  {
    assert buffer[at..][..8] == buffer[at..at + 8];
    LeValueBound(buffer[at..at + 8]);
    Widths();
    value, offset := LeValue(buffer[at..at + 8]), 8;
  }

  method DeserializeInt(buffer: array<Byte>, at: nat) returns (value: Int32, offset: nat)
    requires at <= buffer.Length && Readable(IntKind, buffer[at..])
    ensures (IntField(value), offset) == Decode(IntKind, buffer[at..])
  {
    assert buffer[at..][..4] == buffer[at..at + 4];
    LeValueBound(buffer[at..at + 4]);
    Widths();
    value, offset := Signed(TWO_32, LeValue(buffer[at..at + 4])), 4;
  }

  method DeserializeShort(buffer: array<Byte>, at: nat) returns (value: Int16, offset: nat)
    requires at <= buffer.Length && Readable(ShortKind, buffer[at..])
    ensures (ShortField(value), offset) == Decode(ShortKind, buffer[at..])
  {
    assert buffer[at..][..2] == buffer[at..at + 2];
    LeValueBound(buffer[at..at + 2]);
    Widths();
    value, offset := Signed(0x1_0000, LeValue(buffer[at..at + 2])), 2;
  }

  method DeserializeDouble(buffer: array<Byte>, at: nat) returns (bits: UInt64, offset: nat)
    requires at <= buffer.Length && Readable(DoubleKind, buffer[at..])
    ensures (DoubleField(bits), offset) == Decode(DoubleKind, buffer[at..])
  {
    assert buffer[at..][..8] == buffer[at..at + 8];
    LeValueBound(buffer[at..at + 8]);
    Widths();
    bits, offset := LeValue(buffer[at..at + 8]), 8;
  }

  method DeserializeChar(buffer: array<Byte>, at: nat) returns (value: Byte, offset: nat)
    requires at <= buffer.Length && Readable(CharKind, buffer[at..])
    ensures (CharField(value), offset) == Decode(CharKind, buffer[at..])
  {
    value, offset := buffer[at], 1;
  }

  method DeserializeValue(buffer: array<Byte>, at: nat, size: nat) returns (value: seq<Byte>, offset: nat)
    requires at <= buffer.Length && Readable(ValueKind(size), buffer[at..])
    ensures (ValueField(value), offset) == Decode(ValueKind(size), buffer[at..])
  {
    assert buffer[at..][..size] == buffer[at..at + size];
    value, offset := buffer[at..at + size], size;
  }

  method DeserializeLength(buffer: array<Byte>, at: nat) returns (len: UInt32)
    requires at + 4 <= buffer.Length
    ensures len == Length(buffer[at..])
  {
    assert buffer[at..][..4] == buffer[at..at + 4];
    LeValueBound(buffer[at..at + 4]);
    Widths();
    len := LeValue(buffer[at..at + 4]);
  }

  /** The result is a new block of len + 1 bytes, the last one a terminator, or NULL. What it means as a
      string is what is before the first NUL in it. */
  method DeserializeStr(buffer: array<Byte>, at: nat) returns (block: Option<seq<Byte>>, len: UInt32, offset: nat)
    requires at <= buffer.Length && Readable(StrKind, buffer[at..])
    ensures len == Length(buffer[at..]) && offset == 4 + len && (block.Some? <==> 0 < len)
    ensures block.Some? ==> |block.value| == len + 1 && block.value[len] == 0 &&
                            block.value[..len] == buffer[at + 4..at + 4 + len]
    ensures (StrField(if block.Some? then Some(UpToNul(block.value)) else None), offset) == Decode(StrKind, buffer[at..])
  {
    len := DeserializeLength(buffer, at);
    if 0 < len {
      assert buffer[at..][4..4 + len] == buffer[at + 4..at + 4 + len];
      block := Some(buffer[at + 4..at + 4 + len] + [0]);
    } else {
      block := None;
    }
    offset := len + 4;
  }

  /** A written string that fits is read with the length of its terminated form, in a block that holds it
      and two terminators. */
  method ReadWrittenStr(buffer: array<Byte>, at: nat, text: CString, ghost rest: seq<Byte>)
    returns (block: Option<seq<Byte>>, len: UInt32)
    requires |text| + 1 < TWO_32 && at <= buffer.Length && buffer[at..] == Encode(StrField(Some(text))) + rest
    ensures len == |text| + 1 && block == Some(text + [0] + [0])
  {
    hide LeBytes, LeValue, DecodeValue, Frame;
    StrRoundTrip(Some(text), rest);
    FrameLength(StrLen(Some(text)), Payload(Some(text)), rest);
    var offset;
    block, len, offset := DeserializeStr(buffer, at);
    assert len == |text| + 1;
    assert buffer[at + 4..at + 4 + len] == buffer[at..][4..4 + len] == Payload(Some(text))[..len] == text + [0];
    assert block.value == block.value[..len] + [0];
  }

  /** The elements are added to those the vector has. */
  method DeserializeVector(buffer: array<Byte>, at: nat, vector: Vector<UInt64>) returns (len: UInt32, offset: nat)
    requires at <= buffer.Length && Readable(VectorKind, buffer[at..])
    requires vector.Valid() && vector.ready && |vector.Items()| + Length(buffer[at..]) / 8 <= VectorModel.INT_MAX
    requires buffer as object !in vector.Repr()
    modifies vector.Repr()
    ensures vector.Valid() && vector.ready && fresh(vector.Repr() - old(vector.Repr()))
    ensures len == Length(buffer[at..]) && offset == 4 + len
    ensures vector.Items() == old(vector.Items()) + Words(buffer[at + 4..at + 4 + len], len / 8)
    ensures var (f, n) := Decode(VectorKind, buffer[at..]);
            offset == n && vector.Items() == old(vector.Items()) + f.words
  {
    hide LeValue, WordAt;
    len := DeserializeLength(buffer, at);
    if 0 < len {
      ghost var payload := buffer[at..][4..4 + len];
      var words := Words(buffer[at + 4..at + 4 + len], len / 8);
      assert payload == buffer[at + 4..at + 4 + len];
      var block := new UInt64[|words|](i requires 0 <= i < |words| => words[i]);
      assert block[0..0 + |words|] == words;
      vector.AppendArray(block, 0, |words|);
    }
    offset := len + 4;
  }

  /** The copy includes the length prefix. */
  method DeserializeBin(buffer: array<Byte>, at: nat) returns (value: seq<Byte>, len: UInt32, offset: nat)
    requires at + 4 <= buffer.Length && at + 4 + Length(buffer[at..]) <= buffer.Length
    ensures len == Length(buffer[at..]) && offset == |value| == 4 + len
    ensures value == buffer[at..][..4 + len]
  {
    len := DeserializeLength(buffer, at);
    value := buffer[at..at + (len + 4)];
    offset := len + 4;
  }
}
