/** Machine words in memory and on disk, least significant byte first. */
module Words {
  import opened Common

  function U16(b: seq<byte>, o: nat): uint16
    requires o + 2 <= |b|
  {
    var lo: nat, hi: nat := b[o], b[o + 1];
    lo + 0x100 * hi
  }

  function U32(b: seq<byte>, o: nat): uint32
    requires o + 4 <= |b|
  {
    var lo: nat, hi: nat := U16(b, o), U16(b, o + 2);
    lo + 0x1_0000 * hi
  }

  function Bytes16(x: uint16): (s: seq<byte>)
    ensures |s| == 2
  {
    [x % 0x100, x / 0x100]
  }

  function Bytes32(x: uint32): (s: seq<byte>)
    ensures |s| == 4
  {
    Bytes16(x % 0x1_0000) + Bytes16(x / 0x1_0000)
  }

  lemma Read16(x: uint16, b: seq<byte>, o: nat)
    requires o + 2 <= |b| && b[o..o + 2] == Bytes16(x)
    ensures U16(b, o) == x
  {
    assert b[o] == b[o..o + 2][0] && b[o + 1] == b[o..o + 2][1];
  }

  lemma Read32(x: uint32, b: seq<byte>, o: nat)
    requires o + 4 <= |b| && b[o..o + 4] == Bytes32(x)
    ensures U32(b, o) == x
  {
    assert b[o..o + 2] == b[o..o + 4][..2] == Bytes16(x % 0x1_0000);
    assert b[o + 2..o + 4] == b[o..o + 4][2..] == Bytes16(x / 0x1_0000);
    Read16(x % 0x1_0000, b, o);
    Read16(x / 0x1_0000, b, o + 2);
  }

  /** The least significant byte comes first. */
  lemma LittleEndian(x: uint32)
    ensures Bytes32(x) == [x % 0x100, x / 0x100 % 0x100, x / 0x1_0000 % 0x100, x / 0x100_0000]
  {
    var lo, hi := x % 0x1_0000, x / 0x1_0000;
    assert lo / 0x100 == x / 0x100 % 0x100 && hi / 0x100 == x / 0x100_0000 && lo % 0x100 == x % 0x100;
  }
}
