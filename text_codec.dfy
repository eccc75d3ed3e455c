/** Conversion of a zero-terminated guest string of 16-bit units into the
    host's 8-bit multi-byte text (UTF-8 as laid out in section 3 of
    RFC 3629, restricted to one, two and three bytes). Each unit is
    encoded on its own: surrogate units are never combined into a pair. */
module TextCodec {
  import opened OskTypes
  import opened GuestMemory

  /** The bytes one 16-bit unit becomes, split at 0x80 and 0x800. The bit
      operations of the layout are written on integers: `c >> 6` is
      `c / 0x40`, `c >> 12` is `c / 0x1000`, `x & 0x3F` is `x % 0x40`, and
      each `|` joins a lead or continuation pattern with bits below it, so
      it is a sum. */
  function EncodeUnit(c: u16): (r: seq<u8>)
    ensures 1 <= |r| <= 3
    ensures |r| == 1 <==> c < 0x80
    ensures |r| == 2 <==> 0x80 <= c < 0x800
    ensures |r| == 1 ==> r[0] as int == c as int
    ensures |r| >= 2 ==> r[0] >= 0xC0 && forall k :: 1 <= k < |r| ==> 0x80 <= r[k] < 0xC0
  {
    var n := c as int;
    if n < 0x80 then
      [n as u8]
    else if n < 0x800 then
      [(0xC0 + n / 0x40) as u8, (0x80 + n % 0x40) as u8]
    else
      [(0xE0 + n / 0x1000) as u8, (0x80 + (n / 0x40) % 0x40) as u8, (0x80 + n % 0x40) as u8]
  }

  /** The encoding of a whole string of units: the units' encodings
      concatenated in order. */
  function Ucs2ToUtf8(units: seq<u16>): (bytes: seq<u8>)
    ensures |units| <= |bytes| <= 3 * |units|
  {
    if units == [] then [] else EncodeUnit(units[0]) + Ucs2ToUtf8(units[1..])
  }

  /** A continuation byte: bit pattern 10xxxxxx. */
  predicate IsContinuation(b: u8) {
    0x80 <= b < 0xC0
  }

  /** The unit encoded at the front of `bytes`, with the number of bytes
      it takes, or None when no one-, two- or three-byte sequence starts
      there. */
  function DecodeFirst(bytes: seq<u8>): (r: Option<(u16, nat)>)
    requires bytes != []
    ensures r.Some? ==> 1 <= r.value.1 <= |bytes|
  {
    var b0 := bytes[0] as int;
    if b0 < 0x80 then
      Some((b0 as u16, 1))
    else if 0xC0 <= b0 < 0xE0 && |bytes| >= 2 && IsContinuation(bytes[1]) then
      Some((((b0 - 0xC0) * 0x40 + (bytes[1] as int - 0x80)) as u16, 2))
    else if 0xE0 <= b0 < 0xF0 && |bytes| >= 3 && IsContinuation(bytes[1]) && IsContinuation(bytes[2]) then
      Some((((b0 - 0xE0) * 0x1000 + (bytes[1] as int - 0x80) * 0x40 + (bytes[2] as int - 0x80)) as u16, 3))
    else
      None
  }

  /** The reading of a byte string back into 16-bit units: the inverse of
      Ucs2ToUtf8, failing on a byte that starts no one-, two- or three-byte
      sequence or on a sequence cut short. */
  function Utf8ToUcs2(bytes: seq<u8>): Option<seq<u16>>
    decreases |bytes|
  {
    if bytes == [] then Some([])
    else
      match DecodeFirst(bytes)
      case None => None
      case Some((c, len)) =>
        match Utf8ToUcs2(bytes[len..])
        case None => None
        case Some(rest) => Some([c] + rest)
  }

  /** The first unit of any encoding followed by anything is read back
      whole. */
  lemma DecodeFirstOfEncoding(c: u16, tail: seq<u8>)
    ensures DecodeFirst(EncodeUnit(c) + tail) == Some((c, |EncodeUnit(c)|))
  {
    var bytes := EncodeUnit(c) + tail;
    var n := c as int;
    if n < 0x80 {
      assert bytes[0] as int == n;
    } else if n < 0x800 {
      assert bytes[0] as int == 0xC0 + n / 0x40 && bytes[1] as int == 0x80 + n % 0x40;
    } else {
      assert bytes[0] as int == 0xE0 + n / 0x1000;
      assert bytes[1] as int == 0x80 + (n / 0x40) % 0x40;
      assert bytes[2] as int == 0x80 + n % 0x40;
      assert (n / 0x1000) * 0x1000 + ((n / 0x40) % 0x40) * 0x40 + n % 0x40 == n;
    }
  }

  /** Every unit's encoding reads back as that unit and nothing more. */
  lemma EncodeUnitReadsBack(c: u16, tail: seq<u8>)
    ensures Utf8ToUcs2(EncodeUnit(c) + tail) ==
      match Utf8ToUcs2(tail)
      case None => None
      case Some(rest) => Some([c] + rest)
  {
    var r := EncodeUnit(c);
    assert (r + tail)[|r|..] == tail;
    DecodeFirstOfEncoding(c, tail);
  }

  /** Round trip: the encoding of any unit string reads back as that
      string, so the conversion loses nothing. */
  lemma {:induction false} Ucs2ToUtf8RoundTrip(units: seq<u16>)
    ensures Utf8ToUcs2(Ucs2ToUtf8(units)) == Some(units)
  {
    if units != [] {
      Ucs2ToUtf8RoundTrip(units[1..]);
      EncodeUnitReadsBack(units[0], Ucs2ToUtf8(units[1..]));
      assert [units[0]] + units[1..] == units;
    }
  }

  /** A nonzero unit never produces a zero byte. */
  lemma EncodeUnitNonZero(c: u16)
    requires c != 0
    ensures forall k :: 0 <= k < |EncodeUnit(c)| ==> EncodeUnit(c)[k] != 0
  {
  }

  /** No byte of the encoding of a string without zero units is zero, so
      the whole encoding survives the copy into a zero-terminated host
      string. */
  lemma {:induction false} Ucs2ToUtf8NoZeroByte(units: seq<u16>)
    requires forall k :: 0 <= k < |units| ==> units[k] != 0
    ensures forall k :: 0 <= k < |Ucs2ToUtf8(units)| ==> Ucs2ToUtf8(units)[k] != 0
  {
    if units != [] {
      Ucs2ToUtf8NoZeroByte(units[1..]);
      EncodeUnitNonZero(units[0]);
    }
  }

  /** Encoding one more unit appends that unit's bytes: what the decoding
      loop relies on. */
  lemma {:induction false} Ucs2ToUtf8Snoc(units: seq<u16>, c: u16)
    ensures Ucs2ToUtf8(units + [c]) == Ucs2ToUtf8(units) + EncodeUnit(c)
  {
    if units == [] {
      assert units + [c] == [c];
    } else {
      assert (units + [c])[1..] == units[1..] + [c];
      Ucs2ToUtf8Snoc(units[1..], c);
    }
  }

  /** The encoding fits the source's 2048-byte buffer with its terminator
      exactly when it is at most 2047 bytes; 682 units always fit, while
      683 units of three bytes each do not. */
  lemma FixedBufferBound(units: seq<u16>)
    ensures |units| <= 682 ==> |Ucs2ToUtf8(units)| + 1 <= 2048
    ensures |units| >= 683 && (forall k :: 0 <= k < |units| ==> units[k] >= 0x800) ==>
      |Ucs2ToUtf8(units)| + 1 > 2048
  {
    if |units| >= 683 && (forall k :: 0 <= k < |units| ==> units[k] >= 0x800) {
      AllThreeBytes(units);
    }
  }

  lemma {:induction false} AllThreeBytes(units: seq<u16>)
    requires forall k :: 0 <= k < |units| ==> units[k] >= 0x800
    ensures |Ucs2ToUtf8(units)| == 3 * |units|
  {
    if units != [] {
      AllThreeBytes(units[1..]);
    }
  }

  /** Decodes the zero-terminated guest string at `addr`: reads units one
      by one up to the first zero unit and appends each unit's bytes. The
      output grows without bound instead of filling a fixed buffer. */
  method ConvertUcs2ToUtf8(mem: GuestMemory, addr: u32) returns (bytes: seq<u8>)
    requires mem.contents.IsTerminated(addr)
    ensures bytes == Ucs2ToUtf8(mem.contents.StringAt(addr))
    ensures forall k :: 0 <= k < |bytes| ==> bytes[k] != 0
    ensures |bytes| <= 3 * |mem.contents.StringAt(addr)|
  {
    ghost var n := mem.contents.TerminatorIndex(addr);
    bytes := [];
    var i: nat := 0;
    var c := mem.ReadU16(UnitAddr(addr, 0));
    while c != 0
      invariant i <= n
      invariant c == mem.contents.ReadU16(UnitAddr(addr, i))
      invariant bytes == Ucs2ToUtf8(mem.contents.UnitsFrom(addr, i))
      decreases n - i
    {
      Ucs2ToUtf8Snoc(mem.contents.UnitsFrom(addr, i), c);
      assert mem.contents.UnitsFrom(addr, i + 1) == mem.contents.UnitsFrom(addr, i) + [c];
      bytes := bytes + EncodeUnit(c);
      i := i + 1;
      c := mem.ReadU16(UnitAddr(addr, i));
    }
    assert i == n;
    Ucs2ToUtf8NoZeroByte(mem.contents.StringAt(addr));
  }
}
