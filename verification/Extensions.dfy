/** Header extensions: TLV records padded to four bytes, and the iterator that walks them. */
module Extensions {
  import opened Outcomes
  import opened Frames
  import BigEndian
  import Buffers

  const CRITICAL_EXTENSION_BIT := 0x8000
  const SOURCE_INGRESS_TS: u16 := 0x0001
  const CORRELATION_ID: u16 := 0x0002

  datatype HeaderExtension = HeaderExtension(extType: u16, isCritical: bool, value: seq<byte>)

  function NewExtension(extType: u16, value: seq<byte>): HeaderExtension {
    HeaderExtension(extType, extType >= CRITICAL_EXTENSION_BIT, value)
  }

  predicate IsKnown(extType: u16) {
    extType == SOURCE_INGRESS_TS || extType == CORRELATION_ID
  }

  function Padded(n: nat): nat {
    (n + 3) / 4 * 4
  }

  function WireLen(x: HeaderExtension): nat {
    4 + Padded(|x.value|)
  }

  /** One record on the wire; a value longer than 65535 bytes has its length field truncated. */
  function EncodeTlv(x: HeaderExtension): (s: seq<byte>)
    ensures |s| == WireLen(x)
  {
    BigEndian.Write(2, x.extType) + BigEndian.Write(2, |x.value|) + x.value
    + Buffers.Zeros(Padded(|x.value|) - |x.value|)
  }

  function EncodeAll(xs: seq<HeaderExtension>): seq<byte> {
    if |xs| == 0 then [] else EncodeTlv(xs[0]) + EncodeAll(xs[1..])
  }

  function TotalWireLen(xs: seq<HeaderExtension>): nat {
    if |xs| == 0 then 0 else WireLen(xs[0]) + TotalWireLen(xs[1..])
  }

  // ---------------------------------------------------------------- the walk

  datatype Item = End | Broken | Record(extension: HeaderExtension, length: nat)

  predicate ShortHeader(remaining: seq<byte>) {
    0 < |remaining| < 4
  }

  /** What the iterator sees at the front of the bytes that remain. */
  function Front(remaining: seq<byte>): (i: Item)
    ensures i.Record? ==> 0 < i.length <= |remaining|
  {
    if |remaining| == 0 then
      End
    else if |remaining| < 4 then
      Broken
    else
      var valLen := BigEndian.ReadU16(remaining[2..4]) as nat;
      var total := 4 + Padded(valLen);
      if |remaining| < total then
        Broken
      else
        Record(NewExtension(BigEndian.ReadU16(remaining[0..2]), remaining[4..4 + valLen]), total)
  }

  /** All records, or an error as soon as one is malformed. */
  function Parse(remaining: seq<byte>): Result<seq<HeaderExtension>>
    decreases |remaining|
  {
    match Front(remaining)
    case End => Ok([])
    case Broken => Err(Malformed())
    case Record(x, n) =>
      var rest :- Parse(remaining[n..]);
      Ok([x] + rest)
  }

  /** The decoder's walk: it also stops at a critical extension it does not know. */
  function Validate(remaining: seq<byte>): Result<()>
    decreases |remaining|
  {
    match Front(remaining)
    case End => Ok(())
    case Broken => Err(Malformed())
    case Record(x, n) =>
      if x.isCritical && !IsKnown(x.extType) then
        Err(Protocol(UnsupportedExtension))
      else
        Validate(remaining[n..])
  }

  class ExtensionIterator {
    const data: seq<byte>
    var offset: nat

    ghost predicate Valid()
      reads this
    {
      offset <= |data|
    }

    function Remaining(): seq<byte>
      reads this
      requires Valid()
    {
      data[offset..]
    }

    constructor (data: seq<byte>)
      ensures Valid() && Remaining() == data && this.data == data
    {
      this.data := data;
      offset := 0;
    }

    method Next() returns (item: Option<Result<HeaderExtension>>)
      requires Valid()
      modifies this
      ensures Valid()
      ensures match Front(old(Remaining()))
              case End => item == None && Remaining() == old(Remaining())
              case Broken => item == Some(Err(Malformed())) && Remaining() == old(Remaining())
              case Record(x, n) => item == Some(Ok(x)) && Remaining() == old(Remaining())[n..]
    {
      if offset >= |data| {
        return None;
      }
      var remaining := data[offset..];
      if |remaining| < 4 {
        return Some(Err(Malformed()));
      }
      var extType := BigEndian.ReadU16(remaining[0..2]);
      var valLen := BigEndian.ReadU16(remaining[2..4]) as nat;
      var total := 4 + Padded(valLen);
      if |remaining| < total {
        return Some(Err(Malformed()));
      }
      offset := offset + total;
      return Some(Ok(NewExtension(extType, remaining[4..4 + valLen])));
    }
  }

  /** Writes one record in place, zeroing its padding. */
  method Encode(x: HeaderExtension, dst: array<byte>) returns (r: Result<nat>)
    modifies dst
    ensures dst.Length < WireLen(x) ==> r == Err(Malformed()) && dst[..] == old(dst[..])
    ensures dst.Length >= WireLen(x) ==>
              r == Ok(WireLen(x)) && dst[..] == EncodeTlv(x) + old(dst[WireLen(x)..])
  {
    hide BigEndian.Write;
    var wireLen := WireLen(x);
    if dst.Length < wireLen {
      return Err(Malformed());
    }
    BigEndian.WriteAt(dst, 0, 2, x.extType);
    BigEndian.WriteAt(dst, 2, 2, |x.value|);
    var n := |x.value|;
    ghost var head := BigEndian.Write(2, x.extType) + BigEndian.Write(2, n);
    assert dst[..] == head + old(dst[4..]);
    Buffers.CopyInto(dst, 4, x.value);
    assert dst[..] == head + x.value + old(dst[4 + n..]);
    Buffers.ZeroFill(dst, 4 + n, wireLen);
    return Ok(wireLen);
  }

  // ---------------------------------------------------------------- round trip

  predicate Canonical(x: HeaderExtension) {
    |x.value| < 0x1_0000 && x.isCritical == (x.extType >= CRITICAL_EXTENSION_BIT)
  }

  lemma FrontOfEncoding(x: HeaderExtension, tail: seq<byte>)
    ensures Canonical(x) ==> Front(EncodeTlv(x) + tail) == Record(x, WireLen(x))
    ensures !Canonical(x) ==> Front(EncodeTlv(x) + tail).Record?
                              && Front(EncodeTlv(x) + tail).extension != x
  {
    hide BigEndian.Read, BigEndian.Write;
    var s := EncodeTlv(x) + tail;
    var lenField := BigEndian.Write(2, |x.value|);
    assert s[0..2] == BigEndian.Write(2, x.extType);
    assert s[2..4] == lenField;
    BigEndian.RoundTrip16(x.extType);
    LengthField(|x.value|);
    var valLen := |x.value| % 0x1_0000;
    assert s[4..4 + |x.value|] == x.value;
    assert s[4..4 + valLen] == x.value[..valLen];
  }

  lemma LengthField(n: nat)
    ensures BigEndian.ReadU16(BigEndian.Write(2, n)) == n % 0x1_0000
  {
    var s := BigEndian.Write(2, n);
    var high, low: byte := n / 256 % 256, n % 256;
    assert BigEndian.Write(1, n / 256) == [high];
    assert s == [high, low];
    assert s[..1] == [high] && [high][..0] == [];
    assert BigEndian.Read([high]) == high;
    LowSixteenBits(n);
  }

  lemma LowSixteenBits(n: nat)
    ensures 256 * (n / 256 % 256) + n % 256 == n % 0x1_0000
  {}

  predicate AllCanonical(xs: seq<HeaderExtension>) {
    forall i :: 0 <= i < |xs| ==> Canonical(xs[i])
  }

  lemma ParseStep(s: seq<byte>, xs: seq<HeaderExtension>)
    requires |xs| > 0 && Front(s).Record?
    ensures Parse(s) == Ok(xs) <==>
            Front(s).extension == xs[0] && Parse(s[Front(s).length..]) == Ok(xs[1..])
  {
    assert xs == [xs[0]] + xs[1..];
    var rest := Parse(s[Front(s).length..]);
    if rest.Ok? {
      assert ([Front(s).extension] + rest.value)[1..] == rest.value;
    }
  }

  /** Iterating over concatenated records returns the list exactly when every record is canonical. */
  lemma {:induction false} TlvRoundTrip(xs: seq<HeaderExtension>)
    ensures Parse(EncodeAll(xs)) == Ok(xs) <==> AllCanonical(xs)
    decreases |xs|
  {
    if |xs| != 0 {
      var x, tail := xs[0], EncodeAll(xs[1..]);
      var s := EncodeTlv(x) + tail;
      FrontOfEncoding(x, tail);
      TlvRoundTrip(xs[1..]);
      assert AllCanonical(xs) <==> Canonical(x) && AllCanonical(xs[1..]) by {
        assert forall i :: 0 <= i < |xs| - 1 ==> xs[1..][i] == xs[i + 1];
      }
      ParseStep(s, xs);
      if Canonical(x) {
        assert s[WireLen(x)..] == tail;
      }
    }
  }

  /** A walk that ends without error has consumed every byte. */
  lemma {:induction false} ParseConsumesAll(data: seq<byte>)
    requires Parse(data).Ok?
    ensures TotalWireLen(Parse(data).value) == |data|
    decreases |data|
  {
    var i := Front(data);
    if i.Record? {
      ParseConsumesAll(data[i.length..]);
      var xs := Parse(data).value;
      assert xs == [i.extension] + Parse(data[i.length..]).value;
      assert xs[1..] == Parse(data[i.length..]).value;
    }
  }

  /** The bytes still unread each time the iterator is asked for a record. */
  function Positions(remaining: seq<byte>): seq<seq<byte>>
    decreases |remaining|
  {
    var i := Front(remaining);
    [remaining] + if i.Record? then Positions(remaining[i.length..]) else []
  }

  /** On four-byte aligned data the "less than 4 bytes remaining" branch is never taken. */
  lemma {:induction false} AlignedWalkHasNoShortHeader(data: seq<byte>)
    requires |data| % 4 == 0
    ensures forall r :: r in Positions(data) ==> !ShortHeader(r)
    decreases |data|
  {
    var i := Front(data);
    if i.Record? {
      assert i.length % 4 == 0;
      AlignedWalkHasNoShortHeader(data[i.length..]);
    }
  }

  /** The decoder accepts exactly the well-formed lists without a critical extension. */
  lemma {:induction false} ValidateMeaning(data: seq<byte>)
    ensures Validate(data).Ok? <==>
            Parse(data).Ok? && forall x :: x in Parse(data).value ==> !x.isCritical
    decreases |data|
  {
    var i := Front(data);
    if i.Record? {
      var rest := data[i.length..];
      ValidateMeaning(rest);
      if Parse(rest).Ok? {
        var xs := Parse(rest).value;
        assert Parse(data).value == [i.extension] + xs;
        assert i.extension in Parse(data).value;
        assert forall x :: x in xs ==> x in Parse(data).value;
      }
    }
  }
}
