/**
 * The byte-level part of `JsonValidator`: detecting a UTF-8 byte order mark
 * (0xEF 0xBB 0xBF) at the start of a file's bytes and removing it.
 */
module JsonValidator {

  /** Java's signed `byte`. */
  newtype byte = b: int | -128 <= b < 128

  /** `b & 0xFF`: the byte read as unsigned, 0 to 255. */
  function Unsigned(b: byte): (u: int)
    ensures 0 <= u < 256
    ensures u % 256 == (b as int) % 256
  {
    if b < 0 then b as int + 256 else b as int
  }

  /** The UTF-8 byte order mark as Java's signed bytes: `(byte) 0xEF, (byte) 0xBB, (byte) 0xBF`. */
  const Bom: seq<byte> := [-17, -69, -65]

  /**
   * `hasUtf8Bom`: at least three bytes, the first three reading 0xEF, 0xBB, 0xBF as
   * unsigned values; that is, the bytes start with the byte order mark.
   */
  function HasUtf8Bom(bytes: seq<byte>): (r: bool)
    ensures r <==> |bytes| >= 3 && bytes[..3] == Bom
  {
    var has := |bytes| >= 3 && Unsigned(bytes[0]) == 0xEF && Unsigned(bytes[1]) == 0xBB && Unsigned(bytes[2]) == 0xBF;
    assert has ==> bytes[..3] == Bom by {
      if has {
        assert bytes[0] == -17 && bytes[1] == -69 && bytes[2] == -65;
      }
    }
    has
  }

  /** The contents `stripBom` returns: the bytes after the mark, or all bytes when there is none. */
  function Stripped(bytes: seq<byte>): seq<byte> {
    if HasUtf8Bom(bytes) then bytes[3..] else bytes
  }

  /**
   * `stripBom`: without a mark the very same array is returned; with one, a new
   * array of three bytes fewer receives the rest. The input array is only read.
   */
  method StripBom(bytes: array<byte>) returns (r: array<byte>)
    ensures !HasUtf8Bom(bytes[..]) ==> r == bytes
    ensures HasUtf8Bom(bytes[..]) ==> fresh(r) && r.Length == bytes.Length - 3
    ensures r[..] == Stripped(bytes[..])
    ensures bytes[..] == old(bytes[..])
  {
    if !HasUtf8Bom(bytes[..]) {
      return bytes;
    }
    r := new byte[bytes.Length - 3];
    // copy every byte after the mark into r
    for i := 0 to r.Length
      invariant r[..i] == bytes[3..3 + i]
    {
      r[i] := bytes[i + 3];
      assert r[..i + 1] == r[..i] + [bytes[i + 3]];
    }
    assert r[..] == r[..r.Length];
  }

  /** The mark followed by any contents strips back to those contents. */
  lemma StripAfterBom(x: seq<byte>)
    ensures Stripped(Bom + x) == x
  {
    assert (Bom + x)[..3] == Bom;
    assert (Bom + x)[3..] == x;
  }

  /** Bytes that do not start with the mark are kept as they are. */
  lemma StripWithoutBom(bytes: seq<byte>)
    requires |bytes| < 3 || bytes[..3] != Bom
    ensures Stripped(bytes) == bytes
  {
  }

  /** Exactly one mark is removed: a doubled mark leaves the second one in place. */
  lemma StripOnlyOnce(x: seq<byte>)
    ensures Stripped(Bom + Bom + x) == Bom + x
  {
    assert Bom + Bom + x == Bom + (Bom + x);
    StripAfterBom(Bom + x);
  }

  /** With a mark the result is three bytes shorter and shifted by three. */
  lemma StripShifts(bytes: seq<byte>)
    requires HasUtf8Bom(bytes)
    ensures |Stripped(bytes)| == |bytes| - 3
    ensures forall i :: 0 <= i < |bytes| - 3 ==> Stripped(bytes)[i] == bytes[i + 3]
  {
  }
}
