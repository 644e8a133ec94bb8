/**
  The Borsh wire format of `swap_route_v3`: little-endian integers, one tag byte
  per enum, and a four-byte length before a dynamic array.
*/
module Wire {
  import opened Common
  import opened TickGrid
  import opened RouteTypes

  type byte = x: nat | x < 256

  const SWAP_ROUTE_V3_DISCRIMINATOR: byte := 42
  const SPEC_LEN: nat := 9

  // --- little-endian integers ---

  function LittleEndian(n: nat, width: nat): (s: seq<byte>)
    ensures |s| == width
  {
    if width == 0 then [] else [n % 256] + LittleEndian(n / 256, width - 1)
  }

  function FromLittleEndian(s: seq<byte>): nat {
    if s == [] then 0 else s[0] + 256 * FromLittleEndian(s[1..])
  }

  function Pow256(k: nat): (r: nat)
    ensures r >= 1
  {
    if k == 0 then 1 else 256 * Pow256(k - 1)
  }

  lemma {:induction false} IntegerRoundTrip(n: nat, width: nat)
    requires n < Pow256(width)
    ensures FromLittleEndian(LittleEndian(n, width)) == n
  {
    if width > 0 {
      IntegerRoundTrip(n / 256, width - 1);
      assert LittleEndian(n, width)[1..] == LittleEndian(n / 256, width - 1);
    }
  }

  lemma {:induction false} IntegerCanonical(s: seq<byte>)
    ensures LittleEndian(FromLittleEndian(s), |s|) == s
    ensures FromLittleEndian(s) < Pow256(|s|)
  {
    if s != [] {
      IntegerCanonical(s[1..]);
      var high := FromLittleEndian(s[1..]);
      assert (s[0] + 256 * high) / 256 == high && (s[0] + 256 * high) % 256 == s[0];
      assert s == [s[0]] + s[1..];
    }
  }

  lemma Widths()
    ensures Pow256(4) == 0x1_0000_0000
    ensures Pow256(8) == 0x1_0000_0000_0000_0000
  {
    assert Pow256(2) == 0x1_0000;
    assert Pow256(4) == 0x1_0000_0000;
    assert Pow256(6) == 0x1_0000_0000_0000;
  }

  // --- encoding ---

  function EncodeSpec(s: SwapSpec): (r: seq<byte>)
    requires s.Valid()
    ensures |r| == SPEC_LEN
  {
    [0, if s.venue.zeroForOne then 1 else 0, s.from, s.to] + LittleEndian(s.weightNanos, 4) + [s.nAccounts]
  }

  function EncodeSpecs(swaps: seq<SwapSpec>): seq<byte>
    requires forall s :: s in swaps ==> s.Valid()
  {
    if swaps == [] then [] else EncodeSpec(swaps[0]) + EncodeSpecs(swaps[1..])
  }

  ghost predicate Encodable(amount: nat, mints: nat, swaps: seq<SwapSpec>) {
    amount <= U64_MAX && mints < 256 && |swaps| < 0x1_0000_0000 && forall s :: s in swaps ==> s.Valid()
  }

  function Header(amount: nat, mints: byte, count: nat): (r: seq<byte>)
    ensures |r| == 14
  {
    [SWAP_ROUTE_V3_DISCRIMINATOR] + LittleEndian(amount, 8) + [mints] + LittleEndian(count, 4)
  }

  ghost function EncodeRoute(amount: nat, mints: nat, swaps: seq<SwapSpec>): seq<byte>
    requires Encodable(amount, mints, swaps)
  {
    Header(amount, mints, |swaps|) + EncodeSpecs(swaps)
  }

  lemma {:induction false} EncodeSpecsAppend(swaps: seq<SwapSpec>, s: SwapSpec)
    requires s.Valid() && forall t :: t in swaps ==> t.Valid()
    ensures EncodeSpecs(swaps + [s]) == EncodeSpecs(swaps) + EncodeSpec(s)
  {
    if swaps == [] {
      assert swaps + [s] == [s];
      assert EncodeSpecs([s]) == EncodeSpec(s) + EncodeSpecs([]);
    } else {
      EncodeSpecsAppend(swaps[1..], s);
      assert (swaps + [s])[1..] == swaps[1..] + [s];
    }
  }

  /** `encode_swap_route_v3_data`: appends to one growing buffer. */
  method EncodeRouteData(amount: nat, mints: nat, swaps: seq<SwapSpec>) returns (data: seq<byte>)
    requires Encodable(amount, mints, swaps)
    ensures data == EncodeRoute(amount, mints, swaps)
  {
    hide LittleEndian, EncodeSpec;
    data := [SWAP_ROUTE_V3_DISCRIMINATOR];
    data := data + LittleEndian(amount, 8);
    data := data + [mints];
    data := data + LittleEndian(|swaps|, 4);
    ghost var header := data;
    assert header == Header(amount, mints, |swaps|);
    for i := 0 to |swaps|
      invariant data == header + EncodeSpecs(swaps[..i])
    {
      assert EncodeSpecs(swaps[..i + 1]) == EncodeSpecs(swaps[..i]) + EncodeSpec(swaps[i]) by {
        EncodeSpecsAppend(swaps[..i], swaps[i]);
        assert swaps[..i + 1] == swaps[..i] + [swaps[i]];
      }
      data := data + EncodeSpec(swaps[i]);
    }
    assert swaps[..|swaps|] == swaps;
  }

  // --- the encoding byte by byte ---

  /** Byte `i` of a little-endian integer is its digit of weight 256^i. */
  lemma {:induction false} LittleEndianByte(n: nat, width: nat, i: nat)
    requires i < width
    ensures LittleEndian(n, width)[i] == n / Pow256(i) % 256
  {
    if i > 0 {
      LittleEndianByte(n / 256, width - 1, i - 1);
      DivideTwice(n, 256, Pow256(i - 1));
    }
  }

  lemma Regroup(a: nat, b: nat, q: nat, y: nat, x: nat)
    ensures a * (b * q + y) + x == (a * b) * q + (a * y + x)
  {
    assert a * (b * q + y) == a * (b * q) + a * y;
    assert a * (b * q) == (a * b) * q;
  }

  lemma DivideTwice(n: nat, a: nat, b: nat)
    requires a > 0 && b > 0
    ensures a * b > 0 && n / a / b == n / (a * b)
  {
    Quotient(n, a);
    Quotient(n / a, b);
    TwiceQuotient(n, a, b, n / a / b, n / a % b, n % a);
  }

  lemma Quotient(n: nat, d: nat)
    requires d > 0
    ensures n == d * (n / d) + n % d && 0 <= n % d < d && n / d >= 0
  {
  }

  lemma TwiceQuotient(n: nat, a: nat, b: nat, q: nat, y: nat, x: nat)
    requires x < a && y < b && n == a * (b * q + y) + x
    ensures a * b > 0 && n / (a * b) == q
  {
    Regroup(a, b, q, y, x);
    MultiplesApart(a, y, b);
    var d, r := a * b, a * y + x;
    assert n == d * q + r && 0 <= r < d;
    QuotientUnique(n, d, q, r);
  }

  lemma QuotientUnique(n: nat, d: nat, q: nat, r: nat)
    requires d > 0 && n == d * q + r && r < d
    ensures n / d == q
  {
    assert n == d * (n / d) + n % d;
    FloorUnique(d, q, n / d, d * q, n);
  }

  /** The nine bytes of one leg: venue tag, direction, the two mint indices, the weight, the account count. */
  predicate IsSpecAt(data: seq<byte>, at: nat, s: SwapSpec) {
    && at + 9 <= |data|
    && data[at] == 0 && data[at + 1] == (if s.venue.zeroForOne then 1 else 0)
    && data[at + 2] == s.from && data[at + 3] == s.to
    && data[at + 4] == s.weightNanos % 256 && data[at + 5] == s.weightNanos / 0x100 % 256
    && data[at + 6] == s.weightNanos / 0x1_0000 % 256 && data[at + 7] == s.weightNanos / 0x100_0000 % 256
    && data[at + 8] == s.nAccounts
  }

  lemma SpecBytes(s: SwapSpec, before: seq<byte>, after: seq<byte>)
    requires s.Valid()
    ensures IsSpecAt(before + EncodeSpec(s) + after, |before|, s)
  {
    var w := s.weightNanos;
    SmallPowers();
    LittleEndianByte(w, 4, 0);
    LittleEndianByte(w, 4, 1);
    LittleEndianByte(w, 4, 2);
    LittleEndianByte(w, 4, 3);
    hide LittleEndian, Pow256;
    var bytes, data := EncodeSpec(s), before + EncodeSpec(s) + after;
    assert forall i :: 0 <= i < 9 ==> data[|before| + i] == bytes[i];
  }

  lemma SmallPowers()
    ensures Pow256(0) == 1 && Pow256(1) == 0x100 && Pow256(2) == 0x1_0000 && Pow256(3) == 0x100_0000
  {
  }

  lemma {:induction false} SpecsBytes(before: seq<byte>, swaps: seq<SwapSpec>, j: nat)
    requires (forall s :: s in swaps ==> s.Valid()) && j < |swaps|
    ensures IsSpecAt(before + EncodeSpecs(swaps), |before| + 9 * j, swaps[j])
    decreases j
  {
    hide IsSpecAt, EncodeSpec;
    var first, rest := EncodeSpec(swaps[0]), EncodeSpecs(swaps[1..]);
    assert before + EncodeSpecs(swaps) == before + first + rest;
    if j == 0 {
      SpecBytes(swaps[0], before, rest);
    } else {
      SpecsBytes(before + first, swaps[1..], j - 1);
    }
  }

  lemma {:induction false} SpecsLength(swaps: seq<SwapSpec>)
    requires forall s :: s in swaps ==> s.Valid()
    ensures |EncodeSpecs(swaps)| == 9 * |swaps|
  {
    if swaps != [] { SpecsLength(swaps[1..]); }
  }

  /** Every byte of an encoded route. */
  lemma RouteBytes(amount: nat, mints: nat, swaps: seq<SwapSpec>)
    requires Encodable(amount, mints, swaps)
    ensures var data := EncodeRoute(amount, mints, swaps);
            && |data| == 14 + 9 * |swaps|
            && data[0] == 42
            && (forall i :: 0 <= i < 8 ==> data[1 + i] == amount / Pow256(i) % 256)
            && data[9] == mints
            && (forall i :: 0 <= i < 4 ==> data[10 + i] == |swaps| / Pow256(i) % 256)
            && (forall j :: 0 <= j < |swaps| ==> IsSpecAt(data, 14 + 9 * j, swaps[j]))
  {
    SpecsLength(swaps);
    var header, data := Header(amount, mints, |swaps|), EncodeRoute(amount, mints, swaps);
    hide LittleEndian, Pow256, IsSpecAt, EncodeSpecs;
    assert forall i :: 0 <= i < 14 ==> data[i] == header[i];
    forall i | 0 <= i < 8
      ensures data[1 + i] == amount / Pow256(i) % 256
    {
      LittleEndianByte(amount, 8, i);
      assert header[1 + i] == LittleEndian(amount, 8)[i];
    }
    forall i | 0 <= i < 4
      ensures data[10 + i] == |swaps| / Pow256(i) % 256
    {
      LittleEndianByte(|swaps|, 4, i);
      assert header[10 + i] == LittleEndian(|swaps|, 4)[i];
    }
    forall j | 0 <= j < |swaps|
      ensures IsSpecAt(data, 14 + 9 * j, swaps[j])
    {
      SpecsBytes(header, swaps, j);
    }
  }

  // --- decoding, as the program's generated deserializer does ---

  function DecodeSpec(data: seq<byte>): Option<SwapSpec> {
    if |data| < SPEC_LEN || data[0] != 0 || data[1] > 1 then None
    else Some(SwapSpec(ByrealClmm(data[1] == 1), data[2], data[3], FromLittleEndian(data[4..8]), data[8]))
  }

  function DecodeSpecs(data: seq<byte>, count: nat): Option<(seq<SwapSpec>, seq<byte>)>
    decreases count
  {
    if count == 0 then Some(([], data))
    else
      match DecodeSpec(data)
      case None => None
      case Some(s) =>
        match DecodeSpecs(data[SPEC_LEN..], count - 1)
        case None => None
        case Some((rest, tail)) => Some(([s] + rest, tail))
  }

  datatype Decoded = Decoded(amount: nat, mints: nat, swaps: seq<SwapSpec>, tail: seq<byte>)

  function DecodeRoute(data: seq<byte>): Option<Decoded> {
    if |data| < 14 || data[0] != SWAP_ROUTE_V3_DISCRIMINATOR then None
    else
      match DecodeSpecs(data[14..], FromLittleEndian(data[10..14]))
      case None => None
      case Some((swaps, tail)) => Some(Decoded(FromLittleEndian(data[1..9]), data[9], swaps, tail))
  }

  lemma SpecRoundTrip(s: SwapSpec, tail: seq<byte>)
    requires s.Valid()
    ensures DecodeSpec(EncodeSpec(s) + tail) == Some(s)
  {
    Widths();
    IntegerRoundTrip(s.weightNanos, 4);
    assert (EncodeSpec(s) + tail)[4..8] == LittleEndian(s.weightNanos, 4);
  }

  lemma SpecCanonical(data: seq<byte>)
    requires DecodeSpec(data).Some?
    ensures DecodeSpec(data).value.Valid() && EncodeSpec(DecodeSpec(data).value) == data[..SPEC_LEN]
  {
    Widths();
    IntegerCanonical(data[4..8]);
    assert data[..SPEC_LEN] == [data[0], data[1], data[2], data[3]] + data[4..8] + [data[8]];
  }

  lemma {:induction false} SpecsRoundTrip(swaps: seq<SwapSpec>, tail: seq<byte>)
    requires forall s :: s in swaps ==> s.Valid()
    ensures DecodeSpecs(EncodeSpecs(swaps) + tail, |swaps|) == Some((swaps, tail))
  {
    if swaps == [] {
      assert EncodeSpecs(swaps) + tail == tail;
    } else {
      var rest := EncodeSpecs(swaps[1..]) + tail;
      assert EncodeSpecs(swaps) + tail == EncodeSpec(swaps[0]) + rest;
      SpecRoundTrip(swaps[0], rest);
      assert (EncodeSpec(swaps[0]) + rest)[SPEC_LEN..] == rest;
      SpecsRoundTrip(swaps[1..], tail);
      assert swaps == [swaps[0]] + swaps[1..];
    }
  }

  lemma {:induction false} SpecsCanonical(data: seq<byte>, count: nat)
    requires DecodeSpecs(data, count).Some?
    ensures var (swaps, tail) := DecodeSpecs(data, count).value;
            && |swaps| == count && (forall s :: s in swaps ==> s.Valid())
            && EncodeSpecs(swaps) + tail == data
    decreases count
  {
    if count > 0 {
      SpecCanonical(data);
      SpecsCanonical(data[SPEC_LEN..], count - 1);
      var s := DecodeSpec(data).value;
      var (rest, tail) := DecodeSpecs(data[SPEC_LEN..], count - 1).value;
      assert ([s] + rest)[1..] == rest;
      assert EncodeSpecs([s] + rest) + tail == EncodeSpec(s) + (EncodeSpecs(rest) + tail);
      assert data == data[..SPEC_LEN] + data[SPEC_LEN..];
    }
  }

  /** Decoding an encoded route gives the route back and leaves any trailing bytes alone. */
  lemma RouteRoundTrip(amount: nat, mints: nat, swaps: seq<SwapSpec>, tail: seq<byte>)
    requires Encodable(amount, mints, swaps)
    ensures DecodeRoute(EncodeRoute(amount, mints, swaps) + tail) == Some(Decoded(amount, mints, swaps, tail))
  {
    Widths();
    IntegerRoundTrip(amount, 8);
    IntegerRoundTrip(|swaps|, 4);
    var header := Header(amount, mints, |swaps|);
    var data := EncodeRoute(amount, mints, swaps) + tail;
    assert data == header + (EncodeSpecs(swaps) + tail);
    assert data[14..] == EncodeSpecs(swaps) + tail;
    assert data[1..9] == header[1..9] == LittleEndian(amount, 8);
    assert data[10..14] == header[10..14] == LittleEndian(|swaps|, 4);
    SpecsRoundTrip(swaps, tail);
  }

  /** Whatever the program accepts is the encoding of what it decoded, plus trailing bytes. */
  lemma RouteCanonical(data: seq<byte>)
    requires DecodeRoute(data).Some?
    ensures var d := DecodeRoute(data).value;
            Encodable(d.amount, d.mints, d.swaps) && EncodeRoute(d.amount, d.mints, d.swaps) + d.tail == data
  {
    Widths();
    var d := DecodeRoute(data).value;
    IntegerCanonical(data[1..9]);
    IntegerCanonical(data[10..14]);
    SpecsCanonical(data[14..], FromLittleEndian(data[10..14]));
    HeaderCanonical(data, d.amount, d.mints, |d.swaps|);
    assert EncodeRoute(d.amount, d.mints, d.swaps) + d.tail == data[..14] + (EncodeSpecs(d.swaps) + d.tail);
    assert data == data[..14] + data[14..];
  }

  lemma HeaderCanonical(data: seq<byte>, amount: nat, mints: byte, count: nat)
    requires |data| >= 14 && data[0] == SWAP_ROUTE_V3_DISCRIMINATOR && data[9] == mints
    requires LittleEndian(amount, 8) == data[1..9] && LittleEndian(count, 4) == data[10..14]
    ensures Header(amount, mints, count) == data[..14]
  {
    assert data[..14] == [data[0]] + data[1..9] + [data[9]] + data[10..14];
  }
}
