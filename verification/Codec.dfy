/**
  The wire format of a message: a list of typed fields, one after the other, without tags.
  Reader and writer agree on the kinds of the fields beforehand.
*/
module Codec {
  import opened Options
  import opened Bytes

  datatype Field =
    | UInt64Field(u: UInt64)
    | IntField(i: Int32)
    | ShortField(s: Int16)
    | DoubleField(bits: UInt64)
    | CharField(c: Byte)
    | ValueField(bytes: seq<Byte>)
    | StrField(text: Option<CString>)
    | VectorField(words: seq<UInt64>)

  datatype Kind = UInt64Kind | IntKind | ShortKind | DoubleKind | CharKind | ValueKind(size: nat) | StrKind | VectorKind

  function KindOf(f: Field): Kind {
    match f
    case UInt64Field(_) => UInt64Kind
    case IntField(_) => IntKind
    case ShortField(_) => ShortKind
    case DoubleField(_) => DoubleKind
    case CharField(_) => CharKind
    case ValueField(b) => ValueKind(|b|)
    case StrField(_) => StrKind
    case VectorField(_) => VectorKind
  }

  // ----- lengths

  /** strlen plus the terminator, in 32-bit arithmetic; 0 for NULL. */
  function StrLen(text: Option<CString>): UInt32 {
    match text
    case None => 0
    case Some(s) => ToUInt32(ToUInt32(|s|) + 1)
  }

  function VectorLen(words: seq<UInt64>): (len: UInt32)
    ensures len <= 8 * |words|
  {
    ToUInt32(ToUInt32(|words|) * 8)
  }

  /** The payload length that the field needs in truth; fixed-size fields have no prefix. */
  function TrueSize(f: Field): nat {
    match f
    case StrField(None) => 4
    case StrField(Some(s)) => |s| + 1 + 4
    case VectorField(ws) => 8 * |ws| + 4
    case _ => |Encode(f)|
  }

  /** The field's length fits its 32-bit prefix. */
  predicate Fits(f: Field) {
    match f
    case StrField(Some(s)) => |s| + 1 < TWO_32
    case VectorField(ws) => 8 * |ws| < TWO_32
    case _ => true
  }

  /** What the prepare macros add up, in 32-bit arithmetic. */
  function Prepare(len: UInt32, f: Field): UInt32 {
    match f
    case StrField(t) => ToUInt32(len + ToUInt32(StrLen(t) + 4))
    case VectorField(ws) => ToUInt32(len + ToUInt32(VectorLen(ws) + 4))
    case _ => ToUInt32(len + ToUInt32(|Encode(f)|))
  }

  // ----- fields

  /** A length-prefixed block; length 0 stands for "nothing". */
  function Frame(len: UInt32, payload: seq<Byte>): (b: seq<Byte>)
    requires len <= |payload|
    ensures |b| == 4 + len
  {
    if len == 0 then [0, 0, 0, 0] else LeBytes(4, len) + payload[..len]
  }

  function Payload(text: Option<CString>): (b: seq<Byte>)
    ensures StrLen(text) <= |b|
  {
    match text
    case None => []
    case Some(s) => s + [0]
  }

  function Encode(f: Field): seq<Byte> {
    match f
    case UInt64Field(u) => LeBytes(8, u)
    case IntField(i) => LeBytes(4, Unsigned(TWO_32, i))
    case ShortField(s) => LeBytes(2, Unsigned(0x1_0000, s))
    case DoubleField(bits) => LeBytes(8, bits)
    case CharField(c) => [c]
    case ValueField(b) => b
    case StrField(t) => Frame(StrLen(t), Payload(t))
    case VectorField(ws) => Frame(VectorLen(ws), WordBytes(ws))
  }

  function FixedSize(k: Kind): nat {
    match k
    case UInt64Kind | DoubleKind => 8
    case IntKind => 4
    case ShortKind => 2
    case CharKind => 1
    case ValueKind(n) => n
    case StrKind | VectorKind => 4
  }

  function Length(b: seq<Byte>): UInt32
    requires |b| >= 4
  {
    LeValueBound(b[..4]);
    Widths();
    LeValue(b[..4])
  }

  /** The field's bytes are all there. */
  predicate Readable(k: Kind, b: seq<Byte>) {
    && FixedSize(k) <= |b|
    && (k.StrKind? || k.VectorKind? ==> 4 + Length(b) <= |b|)
  }

  /** What the reader returns, and the offset to advance by. */
  function Decode(k: Kind, b: seq<Byte>): (Field, nat)
    requires Readable(k, b)
  {
    (DecodeValue(k, b), if k.StrKind? || k.VectorKind? then 4 + Length(b) else FixedSize(k))
  }

  function DecodeValue(k: Kind, b: seq<Byte>): (f: Field)
    requires Readable(k, b)
    ensures KindOf(f) == k
  {
    var fixed := b[..FixedSize(k)];
    LeValueBound(fixed);
    Widths();
    match k
    case UInt64Kind => UInt64Field(LeValue(fixed))
    case IntKind => IntField(Signed(TWO_32, LeValue(fixed)))
    case ShortKind => ShortField(Signed(0x1_0000, LeValue(fixed)))
    case DoubleKind => DoubleField(LeValue(fixed))
    case CharKind => CharField(b[0])
    case ValueKind(_) => ValueField(fixed)
    case StrKind => StrField(if 0 < Length(b) then Some(UpToNul(b[4..4 + Length(b)] + [0])) else None)
    case VectorKind => VectorField(if 0 < Length(b) then Words(b[4..4 + Length(b)], Length(b) / 8) else [])
  }

  // ----- one field

  /** The bytes of the fields of fixed size. */
  lemma FixedLayout(u: UInt64, i: Int32, s: Int16, c: Byte)
    ensures Encode(UInt64Field(u)) == Encode(DoubleField(u)) == LeBytes(8, u)
    ensures Encode(IntField(i)) == LeBytes(4, if i < 0 then i + TWO_32 else i)
    ensures Encode(ShortField(s)) == LeBytes(2, if s < 0 then s + 0x1_0000 else s)
    ensures Encode(CharField(c)) == [c]
  {
    hide LeBytes;
  }

  /** A string that fits: the length with the terminator, the string, the terminator. */
  lemma StrLayout(text: CString)
    requires |text| + 1 < TWO_32
    ensures Encode(StrField(Some(text))) == LeBytes(4, |text| + 1) + (text + [0])
  {
    hide LeBytes, Frame, ToUInt32;
    var len, payload := StrLen(Some(text)), Payload(Some(text));
    LengthsThatFit(text, []);
    assert Encode(StrField(Some(text))) == Frame(len, payload);
    hide *;
    WholeFrame(payload);
  }

  /** A vector that fits and is not empty: eight times the number of words, the words. */
  lemma VectorLayout(words: seq<UInt64>)
    requires 0 < 8 * |words| < TWO_32
    ensures Encode(VectorField(words)) == LeBytes(4, 8 * |words|) + WordBytes(words)
  {
    hide LeBytes, Frame, WordBytes, ToUInt32;
    var len, payload := VectorLen(words), WordBytes(words);
    LengthsThatFit([], words);
    assert Encode(VectorField(words)) == Frame(len, payload);
    hide *;
    WholeFrame(payload);
  }

  lemma LengthsThatFit(text: CString, words: seq<UInt64>)
    ensures |text| + 1 < TWO_32 ==> StrLen(Some(text)) == |text| + 1
    ensures 8 * |words| < TWO_32 ==> VectorLen(words) == 8 * |words|
  {
  }

  lemma WholeFrame(payload: seq<Byte>)
    requires 0 < |payload| < TWO_32
    ensures Frame(|payload|, payload) == LeBytes(4, |payload|) + payload
  {
    hide LeBytes;
    assert payload[..|payload|] == payload;
  }

  lemma FrameLength(len: UInt32, payload: seq<Byte>, rest: seq<Byte>)
    requires len <= |payload|
    ensures var b := Frame(len, payload) + rest; Length(b) == len && b[4..4 + len] == payload[..len]
  {
    var b := Frame(len, payload) + rest;
    Widths();
    LeRoundTrip(4, len);
    if len == 0 {
      assert b[..4] == [0, 0, 0, 0];
      assert LeValue([0, 0, 0, 0]) == 0 by { ZeroValue(); }
    } else {
      assert b[..4] == LeBytes(4, len);
    }
  }

  lemma ZeroValue()
    ensures LeValue([0, 0, 0, 0]) == 0
  {
    var z: seq<Byte> := [0, 0, 0, 0];
    assert LeValue(z[3..]) == 0;
    assert z[2..][1..] == z[3..] && z[1..][1..] == z[2..];
    assert LeValue(z[2..]) == 0;
    assert LeValue(z[1..]) == 0;
  }

  lemma StrRoundTrip(text: Option<CString>, rest: seq<Byte>)
    ensures var b := Encode(StrField(text)) + rest;
            Readable(StrKind, b) && (DecodeValue(StrKind, b) == StrField(text) <==> Fits(StrField(text)))
  {
    hide LeBytes, LeValue, Frame, UpToNul;
    FrameLength(StrLen(text), Payload(text), rest);
    if text.Some? {
      var s, len := text.value, StrLen(text);
      if |s| + 1 < TWO_32 {
        assert len == |s| + 1 && (s + [0])[..len] == s + [0];
        UpToNulOf(s, [0]);
        assert s + [0] + [0] == s + ([0] + [0]);
      } else if 0 < len {
        assert len <= |s| - 1;
        var cut: CString := s[..len];
        assert (s + [0])[..len] == cut;
        UpToNulOf(cut, []);
        assert cut + [0] + [] == cut + [0];
      }
    }
  }

  lemma VectorRoundTrip(words: seq<UInt64>, rest: seq<Byte>)
    ensures var b := Encode(VectorField(words)) + rest;
            Readable(VectorKind, b) && (DecodeValue(VectorKind, b) == VectorField(words) <==> Fits(VectorField(words)))
  {
    hide LeBytes, LeValue, WordBytes, WordAt, Frame;
    var len := VectorLen(words);
    FrameLength(len, WordBytes(words), rest);
    if 8 * |words| < TWO_32 {
      assert len == 8 * |words| && WordBytes(words)[..len] == WordBytes(words);
      WordsRoundTrip(words, []);
      assert WordBytes(words) + [] == WordBytes(words);
    }
  }

  lemma FixedRoundTrip(f: Field, rest: seq<Byte>)
    requires !f.StrField? && !f.VectorField?
    ensures var b := Encode(f) + rest; Readable(KindOf(f), b) && DecodeValue(KindOf(f), b) == f
  {
    var b := Encode(f) + rest;
    assert b[..FixedSize(KindOf(f))] == Encode(f);
    Widths();
    match f
    case UInt64Field(u) => LeRoundTrip(8, u);
    case IntField(i) => LeRoundTrip(4, Unsigned(TWO_32, i));
    case ShortField(s) => LeRoundTrip(2, Unsigned(0x1_0000, s));
    case DoubleField(bits) => LeRoundTrip(8, bits);
    case CharField(_) =>
    case ValueField(_) =>
  }

  /** Whatever follows it, a written field can be read and the reader advances as far as the writer did;
      it reads back what was written exactly when the length fits the prefix. */
  lemma FieldRoundTrip(f: Field, rest: seq<Byte>)
    ensures var b := Encode(f) + rest;
            Readable(KindOf(f), b) && Decode(KindOf(f), b).1 == |Encode(f)| &&
            (Decode(KindOf(f), b).0 == f <==> Fits(f))
  {
    hide LeBytes, LeValue, WordBytes, Frame, DecodeValue, StrLen, VectorLen;
    match f
    case StrField(t) => StrRoundTrip(t, rest); FrameLength(StrLen(t), Payload(t), rest);
    case VectorField(ws) => VectorRoundTrip(ws, rest); FrameLength(VectorLen(ws), WordBytes(ws), rest);
    case _ => FixedRoundTrip(f, rest);
  }

  /** The NULL string and the empty string have different encodings. */
  lemma NullIsNotEmpty()
    ensures Encode(StrField(None)) == [0, 0, 0, 0]
    ensures Encode(StrField(Some([]))) == [1, 0, 0, 0, 0]
  {
    assert LeBytes(1, 0) == [0] && LeBytes(2, 0) == [0, 0] && LeBytes(3, 0) == [0, 0, 0];
    assert LeBytes(4, 1) == [1, 0, 0, 0];
  }

  /** A length-prefixed block cut out with its prefix can be decoded later, with the same result. */
  lemma BlockDecodesAlone(k: Kind, b: seq<Byte>)
    requires (k.StrKind? || k.VectorKind?) && Readable(k, b)
    ensures var cut := b[..4 + Length(b)]; Readable(k, cut) && Decode(k, cut) == Decode(k, b)
  {
    hide LeValue, UpToNul, WordAt;
    var cut := b[..4 + Length(b)];
    assert cut[..4] == b[..4] && cut[4..4 + Length(b)] == b[4..4 + Length(b)];
  }

  // ----- messages

  function KindsOf(fs: seq<Field>): (ks: seq<Kind>)
    ensures |ks| == |fs|
  {
    if fs == [] then [] else [KindOf(fs[0])] + KindsOf(fs[1..])
  }

  function EncodeAll(fs: seq<Field>): seq<Byte> {
    if fs == [] then [] else Encode(fs[0]) + EncodeAll(fs[1..])
  }

  datatype Message = Message(fields: seq<Field>, rest: seq<Byte>)

  /** None when the bytes run out, where the C reader has no defined behaviour. */
  function DecodeAll(ks: seq<Kind>, b: seq<Byte>): Option<Message>
    decreases |ks|
  {
    if ks == [] then Some(Message([], b))
    else if !Readable(ks[0], b) then None
    else
      var (f, n) := Decode(ks[0], b);
      match DecodeAll(ks[1..], b[n..])
      case None => None
      case Some(m) => Some(Message([f] + m.fields, m.rest))
  }

  predicate AllFit(fs: seq<Field>) {
    fs == [] || (Fits(fs[0]) && AllFit(fs[1..]))
  }

  /** For every list of fields and any trailing bytes: the reader stops where the writer did, and reads
      back the list exactly when every length fits its prefix. */
  lemma {:induction false} MessageRoundTrip(fs: seq<Field>, rest: seq<Byte>)
    ensures var m := DecodeAll(KindsOf(fs), EncodeAll(fs) + rest);
            m.Some? && m.value.rest == rest && (m.value.fields == fs <==> AllFit(fs))
    decreases |fs|
  {
    hide Encode, Decode, DecodeValue, Readable, KindOf, Fits;
    if fs != [] {
      var f, tail := fs[0], EncodeAll(fs[1..]) + rest;
      assert EncodeAll(fs) + rest == Encode(f) + tail;
      FieldRoundTrip(f, tail);
      assert (Encode(f) + tail)[|Encode(f)|..] == tail;
      MessageRoundTrip(fs[1..], rest);
      assert fs == [f] + fs[1..];
    }
  }

  /** Messages of one schema are prefix-free: equal bytes, whatever trails, mean equal messages. */
  lemma Unambiguous(fs: seq<Field>, rest: seq<Byte>, gs: seq<Field>, rest': seq<Byte>)
    requires KindsOf(fs) == KindsOf(gs) && AllFit(fs) && AllFit(gs)
    requires EncodeAll(fs) + rest == EncodeAll(gs) + rest'
    ensures fs == gs && rest == rest'
  {
    MessageRoundTrip(fs, rest);
    MessageRoundTrip(gs, rest');
  }

  function PrepareAll(len: UInt32, fs: seq<Field>): UInt32
    decreases |fs|
  {
    if fs == [] then len else PrepareAll(Prepare(len, fs[0]), fs[1..])
  }

  function TrueSizeAll(fs: seq<Field>): nat {
    if fs == [] then 0 else TrueSize(fs[0]) + TrueSizeAll(fs[1..])
  }

  lemma PrepareField(len: UInt32, f: Field)
    ensures Prepare(len, f) == ToUInt32(len + |Encode(f)|)
  {
    hide LeBytes, WordBytes, ToUInt32, StrLen, VectorLen;
    match f
    case StrField(t) => WrapSum(len, StrLen(t) + 4);
    case VectorField(ws) => WrapSum(len, VectorLen(ws) + 4);
    case _ => WrapSum(len, |Encode(f)|);
  }

  lemma SizeOfField(f: Field)
    ensures |Encode(f)| <= TrueSize(f) && (TrueSize(f) < TWO_32 ==> Fits(f))
    ensures Fits(f) ==> |Encode(f)| == TrueSize(f)
  {
    hide LeBytes, WordBytes, Frame;
    match f
    case StrField(None) =>
    case StrField(Some(s)) =>
    case VectorField(ws) =>
    case _ =>
  }

  lemma {:induction false} PrepareIsLength(len: UInt32, fs: seq<Field>)
    ensures PrepareAll(len, fs) == ToUInt32(len + |EncodeAll(fs)|)
    ensures |EncodeAll(fs)| <= TrueSizeAll(fs)
    ensures TrueSizeAll(fs) < TWO_32 ==> AllFit(fs)
    ensures AllFit(fs) ==> |EncodeAll(fs)| == TrueSizeAll(fs)
    decreases |fs|
  {
    hide Prepare, Encode, TrueSize, Fits;
    if fs != [] {
      PrepareField(len, fs[0]);
      SizeOfField(fs[0]);
      WrapSum(len + |Encode(fs[0])|, |EncodeAll(fs[1..])|);
      PrepareIsLength(Prepare(len, fs[0]), fs[1..]);
    }
  }

  /** The length that the prepare macros compute is the number of bytes written, and what the fields
      truly need, exactly when that need is below 2^32; then every field fits. */
  lemma PrepareExact(fs: seq<Field>)
    ensures PrepareAll(0, fs) == TrueSizeAll(fs) <==> TrueSizeAll(fs) < TWO_32
    ensures PrepareAll(0, fs) == |EncodeAll(fs)| <==> |EncodeAll(fs)| < TWO_32
    ensures TrueSizeAll(fs) < TWO_32 ==> |EncodeAll(fs)| == TrueSizeAll(fs) && AllFit(fs)
  {
    hide EncodeAll, PrepareAll, TrueSizeAll, AllFit;
    PrepareIsLength(0, fs);
  }

  /** Vector messages one after the other. */
  function VectorFields(vss: seq<seq<UInt64>>): seq<Field> {
    if vss == [] then [] else [VectorField(vss[0])] + VectorFields(vss[1..])
  }

  function Flatten(vss: seq<seq<UInt64>>): seq<UInt64> {
    if vss == [] then [] else vss[0] + Flatten(vss[1..])
  }
}
