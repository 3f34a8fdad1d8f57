/** Byte strings, little-endian integers and hex text as the daemon's crates define them. */
module Bytes {
  import opened Common

  type byte = n: nat | n < 256
  type Bytes = seq<byte>

  function ZeroBytes(n: nat): (bs: Bytes)
    ensures |bs| == n
  {
    if n == 0 then [] else [0] + ZeroBytes(n - 1)
  }

  function Pow256(k: nat): nat {
    if k == 0 then 1 else 256 * Pow256(k - 1)
  }

  /** The low `k` bytes of `n`, least significant first; `u64::to_le_bytes` is LittleEndian(n, 8). */
  function LittleEndian(n: nat, k: nat): (bs: Bytes)
    ensures |bs| == k
  {
    if k == 0 then [] else [n % 256] + LittleEndian(n / 256, k - 1)
  }

  lemma {:induction false} LittleEndianInjective(a: nat, b: nat, k: nat)
    requires a < Pow256(k) && b < Pow256(k) && LittleEndian(a, k) == LittleEndian(b, k)
    ensures a == b
  {
    if k > 0 {
      var la, lb := LittleEndian(a, k), LittleEndian(b, k);
      assert la[0] == a % 256 && lb[0] == b % 256;
      assert la[1..] == LittleEndian(a / 256, k - 1) && lb[1..] == LittleEndian(b / 256, k - 1);
      LittleEndianInjective(a / 256, b / 256, k - 1);
    }
  }

  function HexDigit(n: nat): char
    requires n < 16
  {
    "0123456789abcdef"[n]
  }

  /** A hex digit in either case. */
  function HexValue(c: char): (v: Option<nat>)
    ensures v.Some? ==> v.value < 16
  {
    if '0' <= c <= '9' then Some(c as nat - '0' as nat)
    else if 'a' <= c <= 'f' then Some(c as nat - 'a' as nat + 10)
    else if 'A' <= c <= 'F' then Some(c as nat - 'A' as nat + 10)
    else None
  }

  function LowerHex(c: char): char {
    if 'A' <= c <= 'F' then (c as int - 'A' as int + 'a' as int) as char else c
  }

  function Lower(s: string): string {
    if s == "" then "" else [LowerHex(s[0])] + Lower(s[1..])
  }

  /** `hex::encode`. */
  function HexEncode(bs: Bytes): (s: string)
    ensures |s| == 2 * |bs|
  {
    if bs == [] then "" else [HexDigit(bs[0] / 16), HexDigit(bs[0] % 16)] + HexEncode(bs[1..])
  }

  /** Two digits to a byte. */
  function HexPair(hi: char, lo: char): Option<byte> {
    var h, l := HexValue(hi), HexValue(lo);
    if h.Some? && l.Some? then Some(16 * h.value + l.value) else None
  }

  /** `hex::decode`: fails on an odd length and on a character that is no hex digit. */
  function HexDecode(s: string): Option<Bytes> {
    if s == "" then Some([])
    else if |s| == 1 then None
    else
      var b, rest := HexPair(s[0], s[1]), HexDecode(s[2..]);
      if b.Some? && rest.Some? then Some([b.value] + rest.value) else None
  }

  lemma HexDigits(n: nat)
    requires n < 16
    ensures HexValue(HexDigit(n)) == Some(n)
  {
  }

  lemma HexPairBack(hi: char, lo: char)
    requires HexPair(hi, lo).Some?
    ensures var b := HexPair(hi, lo).value;
            HexDigit(b / 16) == LowerHex(hi) && HexDigit(b % 16) == LowerHex(lo)
  {
    var h, l := HexValue(hi).value, HexValue(lo).value;
    assert (16 * h + l) / 16 == h && (16 * h + l) % 16 == l;
  }

  lemma {:induction false} HexDecodeEncode(bs: Bytes)
    ensures HexDecode(HexEncode(bs)) == Some(bs)
    decreases |bs|
  {
    hide HexDigit, HexValue;
    if bs != [] {
      var b := bs[0];
      HexDecodeEncode(bs[1..]);
      HexDigits(b / 16);
      HexDigits(b % 16);
      assert HexPair(HexDigit(b / 16), HexDigit(b % 16)) == Some(b);
      assert HexEncode(bs)[2..] == HexEncode(bs[1..]);
      assert bs == [b] + bs[1..];
    }
  }

  /** Decoding then encoding gives the text back in lower case. */
  lemma {:induction false} HexEncodeDecode(s: string)
    requires HexDecode(s).Some?
    ensures HexEncode(HexDecode(s).value) == Lower(s)
    ensures |s| == 2 * |HexDecode(s).value|
    decreases |s|
  {
    hide HexDigit, HexValue, LowerHex;
    if s != "" {
      HexEncodeDecode(s[2..]);
      HexPairBack(s[0], s[1]);
      var bs := HexDecode(s).value;
      assert bs[1..] == HexDecode(s[2..]).value;
      assert s[1..][1..] == s[2..];
      assert Lower(s) == [LowerHex(s[0])] + ([LowerHex(s[1])] + Lower(s[2..]));
    }
  }

  /** Byte `i` counts 256^i. */
  function Weighed(bs: Bytes): nat {
    if bs == [] then 0 else Weighed(bs[..|bs| - 1]) + bs[|bs| - 1] * Pow256(|bs| - 1)
  }

  lemma {:induction false} WeighedCons(b: byte, bs: Bytes)
    ensures Weighed([b] + bs) == b + 256 * Weighed(bs)
    decreases |bs|
  {
    var all := [b] + bs;
    if bs == [] {
      assert all[..0] == [];
    } else {
      var last := |bs| - 1;
      WeighedCons(b, bs[..last]);
      assert all[..|bs|] == [b] + bs[..last];
      TimesPower(bs[last], last);
    }
  }

  lemma TimesPower(b: nat, k: nat)
    ensures b * Pow256(k + 1) == 256 * (b * Pow256(k))
  {
  }

  /** Eight bytes, say, hold the number they are made from. */
  lemma {:induction false} LittleEndianWeighs(n: nat, k: nat)
    requires n < Pow256(k)
    ensures Weighed(LittleEndian(n, k)) == n
    decreases k
  {
    if k > 0 {
      LittleEndianWeighs(n / 256, k - 1);
      WeighedCons(n % 256, LittleEndian(n / 256, k - 1));
    }
  }

  /** Each byte becomes two digits, the high one first. */
  lemma {:induction false} HexEncodeAt(bs: Bytes, i: nat)
    requires i < |bs|
    ensures var s := HexEncode(bs);
            s[2 * i] == "0123456789abcdef"[bs[i] / 16] && s[2 * i + 1] == "0123456789abcdef"[bs[i] % 16]
    decreases |bs|
  {
    if i > 0 {
      HexEncodeAt(bs[1..], i - 1);
    }
  }

  predicate IsHexDigit(c: char) {
    '0' <= c <= '9' || 'a' <= c <= 'f' || 'A' <= c <= 'F'
  }

  /** Text decodes exactly when it has an even number of characters, all hex digits. */
  lemma {:induction false} HexDecodesExactlyWhen(s: string)
    ensures HexDecode(s).Some? <==> |s| % 2 == 0 && forall i :: 0 <= i < |s| ==> IsHexDigit(s[i])
    decreases |s|
  {
    if |s| >= 2 {
      HexDecodesExactlyWhen(s[2..]);
      assert forall i :: 2 <= i < |s| ==> s[i] == s[2..][i - 2];
    }
  }
}
