/** Machine integers, bytes, big-endian numbers and the status codes of fpc_types.h. */
module Bytes {
  newtype byte = x: int | 0 <= x < 256

  const TWO_32: int := 0x1_0000_0000
  const TWO_64: int := 0x1_0000_0000_0000_0000

  type uint32 = x: int | 0 <= x < TWO_32
  type uint64 = x: int | 0 <= x < TWO_64

  datatype Option<+T> = None | Some(value: T)

  /** A negative status. */
  type Failure = x: int | x < 0 witness -1

  const ERROR_INPUT := 1
  const ERROR_TIMEDOUT := 2
  const ERROR_ALLOC := 3
  const ERROR_COMM := 4
  const ERROR_NOSPACE := 5
  const ERROR_IO := 6
  const ERROR_CANCELLED := 7
  const ERROR_NOENTITY := 8
  const ERROR_HARDWARE := 9
  const ERROR_CONFIG := 10
  const ERROR_NOT_INITIALIZED := 11
  const ERROR_RESET_HARDWARE := 12
  const ERROR_DB := 17

  /** Results of a capture that are not errors. */
  const CAPTURE_OK := 0
  const CAPTURE_FINGER_LOST := 1
  const CAPTURE_BAD_QUALITY := 2
  const CAPTURE_QUALIFY_ABORT := 3
  const CAPTURE_FINGER_STUCK := 4

  function Repeat(b: byte, n: nat): (s: seq<byte>)
    ensures |s| == n
  {
    seq(n, _ => b)
  }

  function Be32(x: uint32): (s: seq<byte>)
    ensures |s| == 4
  {
    [(x / 0x100_0000) as byte, (x / 0x1_0000 % 0x100) as byte, (x / 0x100 % 0x100) as byte,
     (x % 0x100) as byte]
  }

  function FromBe32(s: seq<byte>): uint32
    requires |s| == 4
  {
    s[0] as int * 0x100_0000 + s[1] as int * 0x1_0000 + s[2] as int * 0x100 + s[3] as int
  }

  function Be64(x: uint64): (s: seq<byte>)
    ensures |s| == 8
  {
    Be32(x / TWO_32) + Be32(x % TWO_32)
  }

  function FromBe64(s: seq<byte>): uint64
    requires |s| == 8
  {
    FromBe32(s[..4]) * TWO_32 + FromBe32(s[4..])
  }

  lemma Be32RoundTrip(x: uint32)
    ensures FromBe32(Be32(x)) == x
  {
    var a := x / 0x100;
    var b := a / 0x100;
    assert x / 0x1_0000 == b;
    assert x / 0x100_0000 == b / 0x100;
  }

  lemma Be64RoundTrip(x: uint64)
    ensures FromBe64(Be64(x)) == x
  {
    var s := Be64(x);
    assert s[..4] == Be32(x / TWO_32);
    assert s[4..] == Be32(x % TWO_32);
    Be32RoundTrip(x / TWO_32);
    Be32RoundTrip(x % TWO_32);
  }

  lemma FromBe32Inverse(s: seq<byte>)
    requires |s| == 4
    ensures Be32(FromBe32(s)) == s
  {
    var a, b, c, d := s[0] as int, s[1] as int, s[2] as int, s[3] as int;
    var x := FromBe32(s);
    assert x == ((a * 0x100 + b) * 0x100 + c) * 0x100 + d;
    assert x / 0x100 == (a * 0x100 + b) * 0x100 + c;
    assert x / 0x1_0000 == a * 0x100 + b;
    assert x / 0x100_0000 == a;
  }

  lemma FromBe64Inverse(s: seq<byte>)
    requires |s| == 8
    ensures Be64(FromBe64(s)) == s
  {
    hide Be32, FromBe32;
    var high, low := FromBe32(s[..4]), FromBe32(s[4..]);
    assert FromBe64(s) / TWO_32 == high && FromBe64(s) % TWO_32 == low;
    FromBe32Inverse(s[..4]);
    FromBe32Inverse(s[4..]);
  }
}
