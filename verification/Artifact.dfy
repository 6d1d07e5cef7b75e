// The encrypted backup container: framing, nonces, associated data, the writer
// and the reader as functions on byte strings.
module Artifact {
  import opened Prelude

  const MAGIC: Bytes := [0x52, 0x50, 0x42, 0x4B, 0x31]
  const FORMAT_VERSION := 1
  const NONCE_BYTES := 12
  const U32_BYTES := 4
  const U32_LIMIT := 0x1_0000_0000
  const MANIFEST := "manifest"
  const ALGORITHM := "AES-256-GCM"

  // ---- Big-endian 32-bit integers -------------------------------------------

  function PackU32(n: nat): (b: Bytes)
    requires n < U32_LIMIT
    ensures |b| == U32_BYTES
  {
    [n / 0x100_0000, n / 0x1_0000 % 256, n / 256 % 256, n % 256]
  }

  function UnpackU32(b: Bytes): (n: nat)
    requires |b| == U32_BYTES
    ensures n < U32_LIMIT
  {
    var digits: seq<int> := b;
    digits[0] * 0x100_0000 + digits[1] * 0x1_0000 + digits[2] * 256 + digits[3]
  }

  lemma UnpackInvertsPack(n: nat)
    requires n < U32_LIMIT
    ensures UnpackU32(PackU32(n)) == n
  {
    var a := n / 256;
    var b := a / 256;
    assert n / 0x1_0000 == b && n / 0x100_0000 == b / 256;
  }

  // The bytes are the number's digits to base 256, the most significant first.
  lemma PackIsBigEndian(n: nat)
    requires n < U32_LIMIT
    ensures var b: seq<int> := PackU32(n);
            n == b[0] * 0x100_0000 + b[1] * 0x1_0000 + b[2] * 0x100 + b[3]
  {
    UnpackInvertsPack(n);
  }

  lemma PackIsInjective(m: nat, n: nat)
    requires m < U32_LIMIT && n < U32_LIMIT && PackU32(m) == PackU32(n)
    ensures m == n
  {
    UnpackInvertsPack(m);
    UnpackInvertsPack(n);
  }

  // ---- Nonces ------------------------------------------------------------------

  function Pow2(bits: nat): nat {
    if bits == 0 then 1 else 2 * Pow2(bits - 1)
  }

  lemma {:induction false} Pow2Adds(m: nat, n: nat)
    ensures Pow2(m + n) == Pow2(m) * Pow2(n)
  {
    if m > 0 {
      Pow2Adds(m - 1, n);
      assert Pow2(m + n) == 2 * Pow2(m - 1 + n);
    }
  }

  lemma ThirtyTwoBits()
    ensures Pow2(32) == U32_LIMIT
  {
    assert Pow2(4) == 16;
    Pow2Adds(4, 4);
    Pow2Adds(8, 8);
    Pow2Adds(16, 16);
  }

  // Exclusive or of the lowest `bits` bits.
  function Xor(a: nat, b: nat, bits: nat): (r: nat)
    ensures r < Pow2(bits)
  {
    if bits == 0 then 0
    else 2 * Xor(a / 2, b / 2, bits - 1) + (a % 2 + b % 2) % 2
  }

  lemma HalvesAndParity(a: nat, b: nat, bits: nat)
    requires bits > 0
    ensures Xor(a, b, bits) / 2 == Xor(a / 2, b / 2, bits - 1)
    ensures Xor(a, b, bits) % 2 == (a % 2 + b % 2) % 2
    ensures b < Pow2(bits) ==> b / 2 < Pow2(bits - 1)
  {
  }

  lemma {:induction false} XorIsInjective(a: nat, b: nat, c: nat, bits: nat)
    requires b < Pow2(bits) && c < Pow2(bits) && Xor(a, b, bits) == Xor(a, c, bits)
    ensures b == c
  {
    if bits > 0 {
      HalvesAndParity(a, b, bits);
      HalvesAndParity(a, c, bits);
      assert b / 2 == c / 2 by {
        XorIsInjective(a / 2, b / 2, c / 2, bits - 1);
      }
      ParityCancels(a % 2, b % 2, c % 2);
    }
  }

  // The k-th bit of a number.
  function Bit(a: nat, k: nat): bool {
    if k == 0 then a % 2 == 1 else Bit(a / 2, k - 1)
  }

  lemma {:induction false} XorIsBitwise(a: nat, b: nat, bits: nat, k: nat)
    requires k < bits
    ensures Bit(Xor(a, b, bits), k) <==> Bit(a, k) != Bit(b, k)
  {
    HalvesAndParity(a, b, bits);
    if k > 0 {
      XorIsBitwise(a / 2, b / 2, bits - 1, k - 1);
    }
  }

  lemma ParityCancels(x: nat, y: nat, z: nat)
    requires x < 2 && y < 2 && z < 2 && (x + y) % 2 == (x + z) % 2
    ensures y == z
  {
  }

  // None is CHUNK_INDEX_OUT_OF_RANGE.
  function DeriveNonce(base: Bytes, index: nat): (r: Option<Bytes>)
    requires |base| == NONCE_BYTES
    ensures r.Some? <==> index < U32_LIMIT
    ensures r.Some? ==> |r.value| == NONCE_BYTES
  {
    ThirtyTwoBits();
    if index >= U32_LIMIT then None
    else Some(base[..8] + PackU32(Xor(UnpackU32(base[8..]), index, 32)))
  }

  // The first eight bytes are the base's; each bit of the last four, read as a big-endian
  // number, is the exclusive or of the base's and the index's.
  lemma NonceMeans(base: Bytes, index: nat, k: nat)
    requires |base| == NONCE_BYTES && index < U32_LIMIT && k < 32
    ensures var nonce := DeriveNonce(base, index).value;
            && nonce[..8] == base[..8]
            && (Bit(UnpackU32(nonce[8..]), k) <==> Bit(UnpackU32(base[8..]), k) != Bit(index, k))
  {
    ThirtyTwoBits();
    var x := Xor(UnpackU32(base[8..]), index, 32);
    assert (base[..8] + PackU32(x))[8..] == PackU32(x);
    UnpackInvertsPack(x);
    XorIsBitwise(UnpackU32(base[8..]), index, 32, k);
  }

  // The uniqueness requirement on IVs of section 8 of NIST SP 800-38D, within one component.
  lemma NoncesAreDistinct(base: Bytes, i: nat, j: nat)
    requires |base| == NONCE_BYTES && i < U32_LIMIT && j < U32_LIMIT
    requires DeriveNonce(base, i) == DeriveNonce(base, j)
    ensures i == j
  {
    ThirtyTwoBits();
    var counter := UnpackU32(base[8..]);
    var x, y := Xor(counter, i, 32), Xor(counter, j, 32);
    assert (base[..8] + PackU32(x))[8..] == PackU32(x);
    assert (base[..8] + PackU32(y))[8..] == PackU32(y);
    PackIsInjective(x, y);
    XorIsInjective(counter, i, j, 32);
  }

  // ---- Associated data ------------------------------------------------------------

  const COLON: Byte := 0x3A

  function Decimal(n: nat): (d: Bytes)
    ensures d != []
  {
    if n < 10 then [0x30 + n] else Decimal(n / 10) + [0x30 + n % 10]
  }

  predicate IsDigit(b: Byte) {
    0x30 <= b <= 0x39
  }

  lemma {:induction false} DecimalIsDigits(n: nat)
    ensures forall i | 0 <= i < |Decimal(n)| :: IsDigit(Decimal(n)[i])
  {
    if n >= 10 {
      DecimalIsDigits(n / 10);
    }
  }

  // The number that ASCII digits write to base ten.
  function Value(d: Bytes): int {
    if d == [] then 0 else 10 * Value(d[..|d| - 1]) + (d[|d| - 1] as int - 0x30)
  }

  // The digits write the number, without leading zeros.
  lemma {:induction false} DecimalMeans(n: nat)
    ensures Value(Decimal(n)) == n
    ensures Decimal(n)[0] == 0x30 ==> n == 0 && |Decimal(n)| == 1
  {
    if n >= 10 {
      DecimalMeans(n / 10);
      assert Decimal(n)[..|Decimal(n)| - 1] == Decimal(n / 10);
    } else {
      assert Decimal(n)[..0] == [];
    }
  }

  lemma {:induction false} DecimalIsInjective(m: nat, n: nat)
    requires Decimal(m) == Decimal(n)
    ensures m == n
  {
    var d, e := Decimal(m), Decimal(n);
    if m >= 10 && n >= 10 {
      assert d[..|d| - 1] == Decimal(m / 10) && e[..|e| - 1] == Decimal(n / 10);
      assert d[|d| - 1] == e[|e| - 1];
      DecimalIsInjective(m / 10, n / 10);
    }
  }

  // `.encode("ascii")`; None is the UnicodeEncodeError.
  function Ascii(s: string): (r: Option<Bytes>)
    ensures r.Some? <==> forall i | 0 <= i < |s| :: s[i] as int < 128
    ensures r.Some? ==> |r.value| == |s| && forall i | 0 <= i < |s| :: r.value[i] == s[i] as int
  {
    if forall i | 0 <= i < |s| :: s[i] as int < 128
    then Some(seq(|s|, i requires 0 <= i < |s| => s[i] as int))
    else None
  }

  lemma AsciiIsInjective(s: string, t: string)
    requires Ascii(s).Some? && Ascii(s) == Ascii(t)
    ensures s == t
  {
    assert forall i | 0 <= i < |s| :: s[i] == t[i];
  }

  // "rpbk:<format version>:manifest:"
  function ManifestAadPrefix(): Bytes {
    [0x72, 0x70, 0x62, 0x6B, COLON] + Decimal(FORMAT_VERSION)
    + [COLON, 0x6D, 0x61, 0x6E, 0x69, 0x66, 0x65, 0x73, 0x74, COLON]
  }

  function ChunkAad(name: string, index: nat, manifest: Bytes, kek: string): Option<Bytes> {
    if name == MANIFEST then
      match Ascii(kek)
      case None => None
      case Some(k) => Some(ManifestAadPrefix() + (k + [COLON] + Decimal(index)))
    else
      match Ascii(name)
      case None => None
      case Some(n) => Some(manifest + [0] + (n + [COLON] + Decimal(index)))
  }

  // "rpbk:1:manifest:" with key version and index, the colons included, for the manifest;
  // for any other component the manifest's bytes, a zero byte, the name and the index.
  lemma AadMeans(name: string, index: nat, manifest: Bytes, kek: string)
    ensures name == "manifest" ==>
              && (ChunkAad(name, index, manifest, kek).Some? <==> Ascii(kek).Some?)
              && (Ascii(kek).Some? ==>
                    ChunkAad(name, index, manifest, kek).value ==
                      Text("rpbk:1:manifest:") + Text(kek) + Text(":") + Decimal(index))
    ensures name != "manifest" ==>
              && (ChunkAad(name, index, manifest, kek).Some? <==> Ascii(name).Some?)
              && (Ascii(name).Some? ==>
                    ChunkAad(name, index, manifest, kek).value ==
                      manifest + [0] + Text(name) + Text(":") + Decimal(index))
  {
    assert Text(":") == [COLON];
    assert Decimal(1) == [0x31];
    assert Text("rpbk:1:manifest:") == ManifestAadPrefix();
  }

  function Text(s: string): Bytes
    requires Ascii(s).Some?
  {
    Ascii(s).value
  }

  lemma MagicMeans()
    ensures Text("RPBK1") == MAGIC
  {
  }

  // The last colon splits a label from its index: digits hold no colon.
  lemma LastColonSplits(x: Bytes, i: nat, y: Bytes, j: nat)
    requires x + [COLON] + Decimal(i) == y + [COLON] + Decimal(j)
    ensures x == y && i == j
  {
    var d, e := Decimal(i), Decimal(j);
    DecimalIsDigits(i);
    DecimalIsDigits(j);
    var s := x + [COLON] + d;
    var t := y + [COLON] + e;
    assert s[|x|] == COLON && forall k | |x| < k < |s| :: s[k] == d[k - |x| - 1] && IsDigit(s[k]);
    assert t[|y|] == COLON && forall k | |y| < k < |t| :: t[k] == e[k - |y| - 1] && IsDigit(t[k]);
    assert s == t && |x| == |y|;
    assert s[..|x|] == x && t[..|x|] == y;
    assert s[|x| + 1..] == d && t[|x| + 1..] == e;
    DecimalIsInjective(i, j);
  }

  ghost predicate ZeroFree(m: Bytes) {
    forall i | 0 <= i < |m| :: m[i] != 0
  }

  // What `json.dumps` of an object gives: control characters are escaped, a brace opens.
  ghost predicate Canonical(m: Bytes) {
    ZeroFree(m) && m != [] && m[0] == 0x7B
  }

  // A prefix of canonical bytes, as the reader may hold it.
  ghost predicate CanonicalPrefix(m: Bytes) {
    ZeroFree(m) && (m != [] ==> m[0] == 0x7B)
  }

  lemma FirstZeroSplits(m: Bytes, x: Bytes, m': Bytes, y: Bytes)
    requires ZeroFree(m) && ZeroFree(m') && m + [0] + x == m' + [0] + y
    ensures m == m' && x == y
  {
    var s := m + [0] + x;
    var t := m' + [0] + y;
    assert s[|m|] == 0 && forall k | 0 <= k < |m| :: s[k] == m[k] != 0;
    assert t[|m'|] == 0 && forall k | 0 <= k < |m'| :: t[k] == m'[k] != 0;
    assert s == t && |m| == |m'|;
    assert s[..|m|] == m && t[..|m|] == m';
    assert s[|m| + 1..] == x && t[|m| + 1..] == y;
  }

  // The manifest's data starts with 'r', any other with '{' or the separator.
  lemma AadLeadByte(name: string, index: nat, manifest: Bytes, kek: string)
    requires CanonicalPrefix(manifest) && ChunkAad(name, index, manifest, kek).Some?
    ensures var a := ChunkAad(name, index, manifest, kek).value;
            a != [] && (a[0] == 0x72 <==> name == MANIFEST)
  {
    if name != MANIFEST && manifest == [] {
      assert (manifest + [0])[0] == 0;
    }
  }

  // Equal associated data force the same component and chunk, and the same manifest
  // (or, for the manifest component itself, the same key version).
  lemma AadBinds(
      name: string, i: nat, manifest: Bytes, kek: string,
      name': string, j: nat, manifest': Bytes, kek': string)
    requires CanonicalPrefix(manifest) && CanonicalPrefix(manifest')
    requires ChunkAad(name, i, manifest, kek).Some?
    requires ChunkAad(name, i, manifest, kek) == ChunkAad(name', j, manifest', kek')
    ensures name == name' && i == j
    ensures if name == MANIFEST then kek == kek' else manifest == manifest'
  {
    var p := ManifestAadPrefix();
    AadLeadByte(name, i, manifest, kek);
    AadLeadByte(name', j, manifest', kek');
    if name == MANIFEST && name' == MANIFEST {
      var x, y := Ascii(kek).value + [COLON] + Decimal(i), Ascii(kek').value + [COLON] + Decimal(j);
      assert (p + x)[|p|..] == x && (p + y)[|p|..] == y;
      LastColonSplits(Ascii(kek).value, i, Ascii(kek').value, j);
      AsciiIsInjective(kek, kek');
    } else if name != MANIFEST && name' != MANIFEST {
      var x, y := Ascii(name).value + [COLON] + Decimal(i), Ascii(name').value + [COLON] + Decimal(j);
      FirstZeroSplits(manifest, x, manifest', y);
      LastColonSplits(Ascii(name).value, i, Ascii(name').value, j);
      AsciiIsInjective(name, name');
    }
  }
}
