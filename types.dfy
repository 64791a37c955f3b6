/** Machine-level vocabulary shared by the NAT engine: bytes, fixed-width
    unsigned integers, IPv4 addresses, interface handles and the
    big-endian 16-bit word accessors used by every header. */
module Types {

  /** One octet of a packet buffer (`u8`). */
  type byte = x: int | 0 <= x < 0x100

  /** Rust `u16`. */
  type u16 = x: int | 0 <= x < 0x1_0000

  /** Rust `u32`. */
  type u32 = x: int | 0 <= x < 0x1_0000_0000

  /** A 4-byte IPv4 address in network byte order (`[u8; 4]`). */
  type Addr = s: seq<byte> | |s| == 4 witness [0, 0, 0, 0]

  /** A 2-byte field kept as raw bytes (`[u8; 2]`). */
  type Bytes2 = s: seq<byte> | |s| == 2 witness [0, 0]

  datatype Option<T> = None | Some(value: T)

  /** An opaque `*mut NetIf`: interfaces are only ever compared and stored,
      so a handle is an identity, and `NullIf` is the null pointer. */
  datatype NetIf = NullIf | Interface(id: nat)

  /** `u16::from_be_bytes([hi, lo])`. */
  function Be16(hi: byte, lo: byte): u16
  {
    hi * 256 + lo
  }

  /** High byte of `v.to_be_bytes()`. */
  function Hi(v: u16): byte
  {
    v / 256
  }

  /** Low byte of `v.to_be_bytes()`. */
  function Lo(v: u16): byte
  {
    v % 256
  }

  /** The big-endian word stored at `b[k..k+2]`. */
  function WordAt(b: seq<byte>, k: nat): u16
    requires k + 1 < |b|
  {
    Be16(b[k], b[k + 1])
  }

  /** The address stored at `b[k..k+4]`. */
  function AddrAt(b: seq<byte>, k: nat): (a: Addr)
    requires k + 4 <= |b|
    ensures a == b[k..k + 4]
  {
    b[k..k + 4]
  }

  /** `b[k..k+2].copy_from_slice(&v.to_be_bytes())`. */
  function Put16(b: seq<byte>, k: nat, v: u16): (r: seq<byte>)
    requires k + 1 < |b|
    ensures |r| == |b|
    ensures WordAt(r, k) == v
  {
    HiLo(v);
    b[k := Hi(v)][k + 1 := Lo(v)]
  }

  /** Splitting a word into its two bytes and joining them gives it back. */
  lemma HiLo(v: u16)
    ensures Be16(Hi(v), Lo(v)) == v
  {
  }

  /** Bitwise and, least significant bit first. */
  function BitAnd(a: nat, b: nat): (r: nat)
    ensures r <= a && r <= b
    decreases a
  {
    if a == 0 || b == 0 then 0
    else 2 * BitAnd(a / 2, b / 2) + (if a % 2 == 1 && b % 2 == 1 then 1 else 0)
  }

  /** Bitwise or, least significant bit first. */
  function BitOr(a: nat, b: nat): (r: nat)
    ensures a <= r <= a + b
    decreases a + b
  {
    if a == 0 then b
    else if b == 0 then a
    else 2 * BitOr(a / 2, b / 2) + (if a % 2 == 1 || b % 2 == 1 then 1 else 0)
  }

  /** `2^n`. */
  function Pow2(n: nat): (r: nat)
    ensures r >= 1
  {
    if n == 0 then 1 else 2 * Pow2(n - 1)
  }

  /** The or of two numbers below `2^n` stays below `2^n`. */
  lemma {:induction false} OrWithin(a: nat, b: nat, n: nat)
    requires a < Pow2(n) && b < Pow2(n)
    ensures BitOr(a, b) < Pow2(n)
    decreases a + b
  {
    if a != 0 && b != 0 {
      OrWithin(a / 2, b / 2, n - 1);
    }
  }

  /** An all-ones mask of `n` bits keeps every number below `2^n`. */
  lemma {:induction false} AndOnes(a: nat, n: nat)
    requires a < Pow2(n)
    ensures BitAnd(a, Pow2(n) - 1) == a
    decreases n
  {
    if a != 0 {
      assert Pow2(n) == 2 * Pow2(n - 1);
      AndOnes(a / 2, n - 1);
    }
  }

  /** The two whole-octet masks: 255 keeps an octet's bits, 0 clears them,
      so the broadcast octet is the octet itself or 255. */
  lemma OctetMasks(a: byte)
    ensures And8(a, 255) == a && And8(a, 0) == 0
    ensures BroadcastOctet(a, 255) == a && BroadcastOctet(a, 0) == 255
  {
    assert Pow2(8) == 256;
    AndOnes(a, 8);
  }

  /** `a & b` on octets. */
  function And8(a: byte, b: byte): byte
  {
    BitAnd(a, b)
  }

  /** `(a & m) | !m` on octets: the network bits of `a` under the mask `m`
      with every host bit set (`!m` on an octet is `255 - m`). */
  function BroadcastOctet(a: byte, m: byte): byte
  {
    var r := BitOr(BitAnd(a, m), 255 - m);
    assert r <= 255 by { OrWithin(BitAnd(a, m), 255 - m, 8); }
    r
  }

  /** Storing a word changes no byte outside its two. */
  lemma Put16Frame(b: seq<byte>, k: nat, v: u16)
    requires k + 1 < |b|
    ensures forall i :: 0 <= i < |b| && i != k && i != k + 1 ==> Put16(b, k, v)[i] == b[i]
  {
  }

  /** A store inside the first `n` bytes commutes with cutting to them. */
  lemma Put16Prefix(b: seq<byte>, k: nat, v: u16, n: nat)
    requires k + 1 < n <= |b|
    ensures Put16(b, k, v)[..n] == Put16(b[..n], k, v)
  {
    var r, r' := Put16(b, k, v)[..n], Put16(b[..n], k, v);
    assert forall i :: 0 <= i < n ==> r[i] == r'[i];
  }

  /** Writing back the word already stored changes nothing. */
  lemma Put16Same(b: seq<byte>, k: nat)
    requires k + 1 < |b|
    ensures Put16(b, k, WordAt(b, k)) == b
  {
    var w := WordAt(b, k);
    assert Hi(w) == b[k] && Lo(w) == b[k + 1];
  }
}
