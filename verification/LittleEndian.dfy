/** Little-endian integers, as `to_le_bytes` and `from_le_bytes`. */
module LittleEndian {
  import opened Prelude

  /** 256 to the power of `width`: the values that fit that many bytes. */
  function Limit(width: nat): (limit: nat)
    ensures limit > 0
  {
    if width == 0 then 1 else 256 * Limit(width - 1)
  }

  function ToBytes(value: nat, width: nat): (bytes: Bytes)
    ensures |bytes| == width
    decreases width
  {
    if width == 0 then [] else [value % 256] + ToBytes(value / 256, width - 1)
  }

  function FromBytes(bytes: Bytes): nat {
    if bytes == [] then 0 else bytes[0] as int + 256 * FromBytes(bytes[1..])
  }

  lemma {:induction false} DecodeEncode(value: nat, width: nat)
    requires value < Limit(width)
    ensures FromBytes(ToBytes(value, width)) == value
    decreases width
  {
    if width > 0 {
      assert value / 256 < Limit(width - 1);
      DecodeEncode(value / 256, width - 1);
      assert ToBytes(value, width)[1..] == ToBytes(value / 256, width - 1);
    }
  }

  lemma {:induction false} EncodeDecode(bytes: Bytes)
    ensures FromBytes(bytes) < Limit(|bytes|) && ToBytes(FromBytes(bytes), |bytes|) == bytes
  {
    if bytes != [] {
      var rest := FromBytes(bytes[1..]);
      EncodeDecode(bytes[1..]);
      assert FromBytes(bytes) % 256 == bytes[0] && FromBytes(bytes) / 256 == rest;
      assert [bytes[0]] + bytes[1..] == bytes;
    }
  }

  /** The lowest bytes come first. */
  lemma {:induction false} LowestFirst(a: Bytes, b: Bytes)
    ensures FromBytes(a + b) == FromBytes(a) + Limit(|a|) * FromBytes(b)
  {
    if a == [] {
      assert a + b == b;
    } else {
      LowestFirst(a[1..], b);
      FirstByte(a);
      FirstByte(a + b);
      assert (a + b)[1..] == a[1..] + b;
      hide FromBytes, Limit;
      Scaled(a[0] as int, FromBytes(a[1..]), Limit(|a| - 1), FromBytes(b));
    }
  }

  lemma FirstByte(bytes: Bytes)
    requires bytes != []
    ensures FromBytes(bytes) == bytes[0] as int + 256 * FromBytes(bytes[1..])
    ensures Limit(|bytes|) == 256 * Limit(|bytes| - 1)
  {
  }

  lemma Scaled(first: nat, low: nat, limit: nat, high: nat)
    ensures first + 256 * (low + limit * high) == (first + 256 * low) + 256 * limit * high
  {
  }

  lemma TwoBytes(value: nat)
    ensures ToBytes(value, 2) == [value % 256, value / 256 % 256]
  {
    assert ToBytes(value / 256, 1) == [value / 256 % 256] + ToBytes(value / 256 / 256, 0);
  }

  lemma FourBytes(value: nat)
    ensures ToBytes(value, 4)
            == [value % 256, value / 256 % 256, value / 65_536 % 256, value / 16_777_216 % 256]
  {
    TwoBytes(value / 65_536);
    assert value / 256 / 256 == value / 65_536 && value / 65_536 / 256 == value / 16_777_216;
    assert ToBytes(value, 4) == [value % 256] + ToBytes(value / 256, 3);
    assert ToBytes(value / 256, 3) == [value / 256 % 256] + ToBytes(value / 65_536, 2);
  }
}
