/** Bytes, 16-bit words in network order, IPv4 addresses and the option type. */
module Bytes {

  type Byte = b: int | 0 <= b < 0x100
  type U16 = w: int | 0 <= w < 0x1_0000
  type U32 = n: int | 0 <= n < 0x1_0000_0000
  type U64 = n: int | 0 <= n < 0x1_0000_0000_0000_0000

  /** The four octets of an IPv4 address. */
  type Addr = a: seq<Byte> | |a| == 4 witness [0, 0, 0, 0]

  datatype Option<+T> = None | Some(value: T)

  /** The big-endian word made of two bytes. */
  function Word(hi: Byte, lo: Byte): U16 { hi * 256 + lo }

  function Field(p: seq<Byte>, k: nat): U16
    requires k + 2 <= |p|
  {
    Word(p[k], p[k + 1])
  }

  function High(w: U16): Byte { w / 256 }

  function Low(w: U16): Byte { w % 256 }

  /** `p` with the word `w` stored big-endian at offset `k`. */
  function Put16(p: seq<Byte>, k: nat, w: U16): (q: seq<Byte>)
    requires k + 2 <= |p|
    ensures |q| == |p|
    ensures forall j :: 0 <= j < |p| && j != k && j != k + 1 ==> q[j] == p[j]
  {
    p[k := High(w)][k + 1 := Low(w)]
  }

  lemma FieldOfPut16(p: seq<Byte>, k: nat, w: U16)
    requires k + 2 <= |p|
    ensures Field(Put16(p, k, w), k) == w
  {}

  lemma Put16Again(p: seq<Byte>, k: nat, v: U16, w: U16)
    requires k + 2 <= |p|
    ensures Put16(Put16(p, k, v), k, w) == Put16(p, k, w)
  {}

  lemma Put16OfField(p: seq<Byte>, k: nat)
    requires k + 2 <= |p|
    ensures Put16(p, k, Field(p, k)) == p
  {}
}
