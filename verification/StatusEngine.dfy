/** The base32 encoder and the sizing of host names in apache2/msc_status_engine.c. */
module StatusEngine {
  import opened Sequences

  // ---------- bits ----------

  // Bit k of a byte and of the encoder's buffer, counted from the least significant one.
  predicate Bit8(x: bv8, k: nat)
    requires k < 8
  {
    match k
    case 0 => x & 0x1 != 0
    case 1 => x & 0x2 != 0
    case 2 => x & 0x4 != 0
    case 3 => x & 0x8 != 0
    case 4 => x & 0x10 != 0
    case 5 => x & 0x20 != 0
    case 6 => x & 0x40 != 0
    case 7 => x & 0x80 != 0
  }

  predicate Bit16(x: bv16, k: nat)
    requires k < 12
  {
    match k
    case 0 => x & 0x1 != 0
    case 1 => x & 0x2 != 0
    case 2 => x & 0x4 != 0
    case 3 => x & 0x8 != 0
    case 4 => x & 0x10 != 0
    case 5 => x & 0x20 != 0
    case 6 => x & 0x40 != 0
    case 7 => x & 0x80 != 0
    case 8 => x & 0x100 != 0
    case 9 => x & 0x200 != 0
    case 10 => x & 0x400 != 0
    case 11 => x & 0x800 != 0
  }

  // The bits of a byte, most significant first.
  function ByteBits(x: bv8): (b: seq<bool>)
    ensures |b| == 8
  {
    seq(8, i requires 0 <= i < 8 => Bit8(x, 7 - i))
  }

  // The n low bits of the encoder's buffer, most significant first.
  function LowBits(x: bv16, n: nat): (b: seq<bool>)
    requires n <= 12
    ensures |b| == n
  {
    seq(n, i requires 0 <= i < n => Bit16(x, n - 1 - i))
  }

  function Bits(data: seq<bv8>): (b: seq<bool>)
    ensures |b| == 8 * |data|
  {
    if data == [] then [] else ByteBits(data[0]) + Bits(data[1..])
  }

  // A char of the data as it is put into the buffer: signed.
  function SignExtended(x: bv8): bv16 {
    if x >= 0x80 then 0xFF00 | (x as bv16) else x as bv16
  }

  lemma WidenedMasks(x: bv8)
    ensures (x as bv16) & 0x1 != 0 <==> x & 0x1 != 0
    ensures (x as bv16) & 0x2 != 0 <==> x & 0x2 != 0
    ensures (x as bv16) & 0x4 != 0 <==> x & 0x4 != 0
    ensures (x as bv16) & 0x8 != 0 <==> x & 0x8 != 0
    ensures (x as bv16) & 0x10 != 0 <==> x & 0x10 != 0
    ensures (x as bv16) & 0x20 != 0 <==> x & 0x20 != 0
    ensures (x as bv16) & 0x40 != 0 <==> x & 0x40 != 0
    ensures (x as bv16) & 0x80 != 0 <==> x & 0x80 != 0
  {
  }

  lemma Widened(x: bv8, k: nat)
    requires k < 8
    ensures Bit16(x as bv16, k) == Bit8(x, k)
  {
    WidenedMasks(x);
    if k == 0 {} else if k == 1 {} else if k == 2 {} else if k == 3 {} else if k == 4 {} else if k == 5 {} else if k == 6 {} else {}
  }

  lemma SignMasks(y: bv16)
    ensures (0xFF00 | y) & 0x1 != 0 <==> y & 0x1 != 0
    ensures (0xFF00 | y) & 0x2 != 0 <==> y & 0x2 != 0
    ensures (0xFF00 | y) & 0x4 != 0 <==> y & 0x4 != 0
    ensures (0xFF00 | y) & 0x8 != 0 <==> y & 0x8 != 0
    ensures (0xFF00 | y) & 0x10 != 0 <==> y & 0x10 != 0
    ensures (0xFF00 | y) & 0x20 != 0 <==> y & 0x20 != 0
    ensures (0xFF00 | y) & 0x40 != 0 <==> y & 0x40 != 0
    ensures (0xFF00 | y) & 0x80 != 0 <==> y & 0x80 != 0
  {
  }

  lemma StartBits(x: bv8)
    ensures LowBits(SignExtended(x), 8) == ByteBits(x)
  {
    forall k | 0 <= k < 8 ensures Bit16(SignExtended(x), k) == Bit8(x, k) {
      Widened(x, k);
      SignMasks(x as bv16);
      if k == 0 {} else if k == 1 {} else if k == 2 {} else if k == 3 {} else if k == 4 {} else if k == 5 {} else if k == 6 {} else {}
    }
  }

  lemma ShiftMasks(b: bv16, y: bv16)
    requires y < 0x100
    ensures ((b << 8) | y) & 0x1 != 0 <==> y & 0x1 != 0
    ensures ((b << 8) | y) & 0x2 != 0 <==> y & 0x2 != 0
    ensures ((b << 8) | y) & 0x4 != 0 <==> y & 0x4 != 0
    ensures ((b << 8) | y) & 0x8 != 0 <==> y & 0x8 != 0
    ensures ((b << 8) | y) & 0x10 != 0 <==> y & 0x10 != 0
    ensures ((b << 8) | y) & 0x20 != 0 <==> y & 0x20 != 0
    ensures ((b << 8) | y) & 0x40 != 0 <==> y & 0x40 != 0
    ensures ((b << 8) | y) & 0x80 != 0 <==> y & 0x80 != 0
    ensures ((b << 8) | y) & 0x100 != 0 <==> b & 0x1 != 0
    ensures ((b << 8) | y) & 0x200 != 0 <==> b & 0x2 != 0
    ensures ((b << 8) | y) & 0x400 != 0 <==> b & 0x4 != 0
    ensures ((b << 8) | y) & 0x800 != 0 <==> b & 0x8 != 0
  {
  }

  lemma ShiftedBit(b: bv16, y: bv16, k: nat)
    requires k < 12 && y < 0x100
    ensures Bit16((b << 8) | y, k) == if k < 8 then Bit16(y, k) else Bit16(b, k - 8)
  {
    ShiftMasks(b, y);
    if k == 0 {} else if k == 1 {} else if k == 2 {} else if k == 3 {} else if k == 4 {} else if k == 5 {} else if k == 6 {} else if k == 7 {} else if k == 8 {} else if k == 9 {} else if k == 10 {} else {}
  }

  /** Shifting a byte in puts its bits behind those left. */
  lemma ShiftIn(b: bv16, x: bv8, n: nat)
    requires n <= 4
    ensures LowBits((b << 8) | (x as bv16), n + 8) == LowBits(b, n) + ByteBits(x)
  {
    hide Bit16, Bit8;
    var y := x as bv16;
    forall i | 0 <= i < n + 8 ensures LowBits((b << 8) | y, n + 8)[i] == (LowBits(b, n) + ByteBits(x))[i] {
      var k := n + 7 - i;
      ShiftedBit(b, y, k);
      if k < 8 {
        Widened(x, k);
      }
    }
  }

  // x << p, and the five low bits of x >> p.
  function ShiftLeft(x: bv16, p: nat): bv16
    requires 0 < p < 5
  {
    match p
    case 1 => x << 1
    case 2 => x << 2
    case 3 => x << 3
    case 4 => x << 4
  }

  function Index(x: bv16, p: nat): bv16
    requires p < 8
  {
    match p
    case 0 => 0x1f & x
    case 1 => 0x1f & (x >> 1)
    case 2 => 0x1f & (x >> 2)
    case 3 => 0x1f & (x >> 3)
    case 4 => 0x1f & (x >> 4)
    case 5 => 0x1f & (x >> 5)
    case 6 => 0x1f & (x >> 6)
    case 7 => 0x1f & (x >> 7)
  }

  lemma LeftMasks1(x: bv16)
    ensures (x << 1) & 0x1 == 0
    ensures (x << 1) & 0x2 != 0 <==> x & 0x1 != 0
    ensures (x << 1) & 0x4 != 0 <==> x & 0x2 != 0
    ensures (x << 1) & 0x8 != 0 <==> x & 0x4 != 0
    ensures (x << 1) & 0x10 != 0 <==> x & 0x8 != 0
  {
  }

  lemma LeftMasks2(x: bv16)
    ensures (x << 2) & 0x1 == 0
    ensures (x << 2) & 0x2 == 0
    ensures (x << 2) & 0x4 != 0 <==> x & 0x1 != 0
    ensures (x << 2) & 0x8 != 0 <==> x & 0x2 != 0
    ensures (x << 2) & 0x10 != 0 <==> x & 0x4 != 0
  {
  }

  lemma LeftMasks3(x: bv16)
    ensures (x << 3) & 0x1 == 0
    ensures (x << 3) & 0x2 == 0
    ensures (x << 3) & 0x4 == 0
    ensures (x << 3) & 0x8 != 0 <==> x & 0x1 != 0
    ensures (x << 3) & 0x10 != 0 <==> x & 0x2 != 0
  {
  }

  lemma LeftMasks4(x: bv16)
    ensures (x << 4) & 0x1 == 0
    ensures (x << 4) & 0x2 == 0
    ensures (x << 4) & 0x4 == 0
    ensures (x << 4) & 0x8 == 0
    ensures (x << 4) & 0x10 != 0 <==> x & 0x1 != 0
  {
  }

  lemma LeftBit(x: bv16, p: nat, k: nat)
    requires 0 < p < 5 && k < 5
    ensures Bit16(ShiftLeft(x, p), k) == (k >= p && Bit16(x, k - p))
  {
    if p == 1 {
      LeftMasks1(x);
      if k == 0 {} else if k == 1 {} else if k == 2 {} else if k == 3 {} else {}
    } else if p == 2 {
      LeftMasks2(x);
      if k == 0 {} else if k == 1 {} else if k == 2 {} else if k == 3 {} else {}
    } else if p == 3 {
      LeftMasks3(x);
      if k == 0 {} else if k == 1 {} else if k == 2 {} else if k == 3 {} else {}
    } else {
      LeftMasks4(x);
      if k == 0 {} else if k == 1 {} else if k == 2 {} else if k == 3 {} else {}
    }
  }

  function Zeros(n: nat): (z: seq<bool>)
    ensures |z| == n && forall i :: 0 <= i < n ==> !z[i]
  {
    if n == 0 then [] else [false] + Zeros(n - 1)
  }

  /** Padding puts zeros behind the bits left. */
  lemma PadBits(x: bv16, n: nat)
    requires 0 < n < 5
    ensures LowBits(ShiftLeft(x, 5 - n), 5) == LowBits(x, n) + Zeros(5 - n)
  {
    hide Bit16, ShiftLeft;
    var padded, expected := LowBits(ShiftLeft(x, 5 - n), 5), LowBits(x, n) + Zeros(5 - n);
    forall i | 0 <= i < 5 ensures padded[i] == expected[i] {
      LeftBit(x, 5 - n, 4 - i);
    }
  }

  lemma RightMasks0(x: bv16)
    ensures (0x1f & x) & 0x1 != 0 <==> x & 0x1 != 0
    ensures (0x1f & x) & 0x2 != 0 <==> x & 0x2 != 0
    ensures (0x1f & x) & 0x4 != 0 <==> x & 0x4 != 0
    ensures (0x1f & x) & 0x8 != 0 <==> x & 0x8 != 0
    ensures (0x1f & x) & 0x10 != 0 <==> x & 0x10 != 0
  {
  }

  lemma RightMasks1(x: bv16)
    ensures (0x1f & (x >> 1)) & 0x1 != 0 <==> x & 0x2 != 0
    ensures (0x1f & (x >> 1)) & 0x2 != 0 <==> x & 0x4 != 0
    ensures (0x1f & (x >> 1)) & 0x4 != 0 <==> x & 0x8 != 0
    ensures (0x1f & (x >> 1)) & 0x8 != 0 <==> x & 0x10 != 0
    ensures (0x1f & (x >> 1)) & 0x10 != 0 <==> x & 0x20 != 0
  {
  }

  lemma RightMasks2(x: bv16)
    ensures (0x1f & (x >> 2)) & 0x1 != 0 <==> x & 0x4 != 0
    ensures (0x1f & (x >> 2)) & 0x2 != 0 <==> x & 0x8 != 0
    ensures (0x1f & (x >> 2)) & 0x4 != 0 <==> x & 0x10 != 0
    ensures (0x1f & (x >> 2)) & 0x8 != 0 <==> x & 0x20 != 0
    ensures (0x1f & (x >> 2)) & 0x10 != 0 <==> x & 0x40 != 0
  {
  }

  lemma RightMasks3(x: bv16)
    ensures (0x1f & (x >> 3)) & 0x1 != 0 <==> x & 0x8 != 0
    ensures (0x1f & (x >> 3)) & 0x2 != 0 <==> x & 0x10 != 0
    ensures (0x1f & (x >> 3)) & 0x4 != 0 <==> x & 0x20 != 0
    ensures (0x1f & (x >> 3)) & 0x8 != 0 <==> x & 0x40 != 0
    ensures (0x1f & (x >> 3)) & 0x10 != 0 <==> x & 0x80 != 0
  {
  }

  lemma RightMasks4(x: bv16)
    ensures (0x1f & (x >> 4)) & 0x1 != 0 <==> x & 0x10 != 0
    ensures (0x1f & (x >> 4)) & 0x2 != 0 <==> x & 0x20 != 0
    ensures (0x1f & (x >> 4)) & 0x4 != 0 <==> x & 0x40 != 0
    ensures (0x1f & (x >> 4)) & 0x8 != 0 <==> x & 0x80 != 0
    ensures (0x1f & (x >> 4)) & 0x10 != 0 <==> x & 0x100 != 0
  {
  }

  lemma RightMasks5(x: bv16)
    ensures (0x1f & (x >> 5)) & 0x1 != 0 <==> x & 0x20 != 0
    ensures (0x1f & (x >> 5)) & 0x2 != 0 <==> x & 0x40 != 0
    ensures (0x1f & (x >> 5)) & 0x4 != 0 <==> x & 0x80 != 0
    ensures (0x1f & (x >> 5)) & 0x8 != 0 <==> x & 0x100 != 0
    ensures (0x1f & (x >> 5)) & 0x10 != 0 <==> x & 0x200 != 0
  {
  }

  lemma RightMasks6(x: bv16)
    ensures (0x1f & (x >> 6)) & 0x1 != 0 <==> x & 0x40 != 0
    ensures (0x1f & (x >> 6)) & 0x2 != 0 <==> x & 0x80 != 0
    ensures (0x1f & (x >> 6)) & 0x4 != 0 <==> x & 0x100 != 0
    ensures (0x1f & (x >> 6)) & 0x8 != 0 <==> x & 0x200 != 0
    ensures (0x1f & (x >> 6)) & 0x10 != 0 <==> x & 0x400 != 0
  {
  }

  lemma RightMasks7(x: bv16)
    ensures (0x1f & (x >> 7)) & 0x1 != 0 <==> x & 0x80 != 0
    ensures (0x1f & (x >> 7)) & 0x2 != 0 <==> x & 0x100 != 0
    ensures (0x1f & (x >> 7)) & 0x4 != 0 <==> x & 0x200 != 0
    ensures (0x1f & (x >> 7)) & 0x8 != 0 <==> x & 0x400 != 0
    ensures (0x1f & (x >> 7)) & 0x10 != 0 <==> x & 0x800 != 0
  {
  }

  lemma RightBit(x: bv16, p: nat, k: nat)
    requires p < 8 && k < 5
    ensures Bit16(Index(x, p), k) == Bit16(x, k + p)
  {
    if p == 0 {
      RightMasks0(x);
      if k == 0 {} else if k == 1 {} else if k == 2 {} else if k == 3 {} else {}
    } else if p == 1 {
      RightMasks1(x);
      if k == 0 {} else if k == 1 {} else if k == 2 {} else if k == 3 {} else {}
    } else if p == 2 {
      RightMasks2(x);
      if k == 0 {} else if k == 1 {} else if k == 2 {} else if k == 3 {} else {}
    } else if p == 3 {
      RightMasks3(x);
      if k == 0 {} else if k == 1 {} else if k == 2 {} else if k == 3 {} else {}
    } else if p == 4 {
      RightMasks4(x);
      if k == 0 {} else if k == 1 {} else if k == 2 {} else if k == 3 {} else {}
    } else if p == 5 {
      RightMasks5(x);
      if k == 0 {} else if k == 1 {} else if k == 2 {} else if k == 3 {} else {}
    } else if p == 6 {
      RightMasks6(x);
      if k == 0 {} else if k == 1 {} else if k == 2 {} else if k == 3 {} else {}
    } else {
      RightMasks7(x);
      if k == 0 {} else if k == 1 {} else if k == 2 {} else if k == 3 {} else {}
    }
  }

  /** The five bits taken out, and those left. */
  lemma TakeBits(x: bv16, n: nat)
    requires 5 <= n <= 12
    ensures LowBits(Index(x, n - 5), 5) == LowBits(x, n)[..5]
    ensures LowBits(x, n - 5) == LowBits(x, n)[5..]
  {
    hide Bit16, Index;
    forall i | 0 <= i < 5 ensures LowBits(Index(x, n - 5), 5)[i] == LowBits(x, n)[i] {
      RightBit(x, n - 5, 4 - i);
    }
  }

  // ---------- base32 ----------

  function BitValue(b: bool): nat {
    if b then 1 else 0
  }

  function Value(g: seq<bool>): (v: nat)
    requires |g| == 5
    ensures v < 32
  {
    16 * BitValue(g[0]) + 8 * BitValue(g[1]) + 4 * BitValue(g[2]) + 2 * BitValue(g[3]) + BitValue(g[4])
  }

  /** The letters A to Z and the digits 2 to 7. */
  function Symbol(v: nat): char
    requires v < 32
  {
    if v < 26 then 'A' + v as char else '2' + (v - 26) as char
  }

  /** The alphabet of section 6 of RFC 4648. */
  lemma SymbolExact(v: nat)
    requires v < 32
    ensures Symbol(v) == "ABCDEFGHIJKLMNOPQRSTUVWXYZ234567"[v]
  {
  }

  /** The base32 form of section 6 of RFC 4648, without padding: a symbol for
      every five bits, the last ones filled up with zeros. */
  function Base32(data: seq<bv8>): (t: string)
    ensures |t| == (8 * |data| + 4) / 5
  {
    Text(Bits(data))
  }

  function Text(bits: seq<bool>): (t: string)
    ensures |t| == (|bits| + 4) / 5
    decreases |bits|
  {
    if bits == [] then []
    else if |bits| < 5 then [Symbol(Value(bits + Zeros(5 - |bits|)))]
    else [Symbol(Value(bits[..5]))] + Text(bits[5..])
  }

  lemma IndexValue(x: bv16, p: nat)
    requires p < 8
    ensures Index(x, p) < 32 && Index(x, p) as nat == Value(LowBits(Index(x, p), 5))
  {
    FiveBitValue(Index(x, p));
  }

  lemma FiveBitValue(y: bv16)
    requires y < 32
    ensures y as nat == Value(LowBits(y, 5))
  {
    var g := LowBits(y, 5);
    assert g[0] == Bit16(y, 4) && g[1] == Bit16(y, 3) && g[2] == Bit16(y, 2) && g[3] == Bit16(y, 1) && g[4] == Bit16(y, 0);
  }

  // What has not been encoded: the bits left in the buffer and the bytes to come.
  function Pending(buffer: bv16, bitsLeft: nat, data: seq<bv8>, next: nat): seq<bool>
    requires bitsLeft <= 12 && next <= |data|
  {
    LowBits(buffer, bitsLeft) + Bits(data[next..])
  }

  lemma PendingStart(data: seq<bv8>)
    requires data != []
    ensures Pending(SignExtended(data[0]), 8, data, 1) == Bits(data)
  {
    StartBits(data[0]);
  }

  lemma PendingByte(buffer: bv16, bitsLeft: nat, data: seq<bv8>, next: nat)
    requires bitsLeft < 5 && next < |data|
    ensures Pending((buffer << 8) | (data[next] as bv16), bitsLeft + 8, data, next + 1) == Pending(buffer, bitsLeft, data, next)
  {
    ShiftIn(buffer, data[next], bitsLeft);
    assert data[next..][1..] == data[next + 1..];
  }

  /** Taking five bits emits the first symbol of what is pending. */
  lemma PendingSymbol(buffer: bv16, bitsLeft: nat, data: seq<bv8>, next: nat)
    requires 5 <= bitsLeft <= 12 && next <= |data|
    ensures Index(buffer, bitsLeft - 5) < 32
    ensures Text(Pending(buffer, bitsLeft, data, next)) ==
            [Symbol(Index(buffer, bitsLeft - 5) as nat)] + Text(Pending(buffer, bitsLeft - 5, data, next))
  {
    hide Index, Bit16, Symbol, Value;
    TakeBits(buffer, bitsLeft);
    IndexValue(buffer, bitsLeft - 5);
    var p := Pending(buffer, bitsLeft, data, next);
    assert p[..5] == LowBits(buffer, bitsLeft)[..5];
    assert p[5..] == Pending(buffer, bitsLeft - 5, data, next);
  }

  lemma PendingPadded(buffer: bv16, bitsLeft: nat, data: seq<bv8>)
    requires 0 < bitsLeft < 5
    ensures Text(Pending(ShiftLeft(buffer, 5 - bitsLeft), 5, data, |data|)) == Text(Pending(buffer, bitsLeft, data, |data|))
  {
    hide ShiftLeft, Symbol, Value;
    PadBits(buffer, bitsLeft);
    var z := LowBits(ShiftLeft(buffer, 5 - bitsLeft), 5);
    assert data[|data|..] == [];
    assert Pending(ShiftLeft(buffer, 5 - bitsLeft), 5, data, |data|) == z;
    assert Pending(buffer, bitsLeft, data, |data|) == LowBits(buffer, bitsLeft);
    assert z[..5] == z && z[5..] == [];
  }

  /** Refills the buffer when it holds fewer than five bits, and takes the next symbol out. */
  method NextSymbol(buffer: bv16, bitsLeft: nat, data: seq<bv8>, next: nat)
    returns (symbol: char, buffer': bv16, bitsLeft': nat, next': nat)
    requires bitsLeft <= 8 && next <= |data| && (bitsLeft > 0 || next < |data|)
    ensures bitsLeft' <= 8 && next <= next' <= |data|
    ensures Text(Pending(buffer, bitsLeft, data, next)) == [symbol] + Text(Pending(buffer', bitsLeft', data, next'))
    ensures 8 * (|data| - next') + bitsLeft' < 8 * (|data| - next) + bitsLeft
  {
    hide Pending, Text, Index, ShiftLeft, Bit16, Symbol;
    buffer', bitsLeft', next' := buffer, bitsLeft, next;
    if bitsLeft < 5 {
      if next < |data| {
        PendingByte(buffer, bitsLeft, data, next);
        buffer' := (buffer << 8) | (data[next] as bv16);
        next' := next + 1;
        bitsLeft' := bitsLeft + 8;
      } else {
        PendingPadded(buffer, bitsLeft, data);
        var pad := 5 - bitsLeft;
        buffer' := ShiftLeft(buffer, pad);
        bitsLeft' := bitsLeft + pad;
      }
    }
    PendingSymbol(buffer', bitsLeft', data, next');
    var index := Index(buffer', bitsLeft' - 5);
    bitsLeft' := bitsLeft' - 5;
    symbol := Symbol(index as nat);
  }

  /** Writes the encoding, or only counts its symbols (and one more) when there is nowhere to write to. */
  method Base32Encode(encoded: array?<char>, data: seq<bv8>, size: nat) returns (count: nat)
    requires encoded != null ==> size <= encoded.Length
    modifies if encoded == null then {} else {encoded}
    ensures encoded == null && size == 0 ==> count == |Base32(data)| + 1
    ensures encoded != null || size != 0 ==> count == if size < |Base32(data)| then size else |Base32(data)|
    ensures encoded != null ==> encoded[..count] == Base32(data)[..count] && (count < size ==> encoded[count] == '\0')
  {
    hide Bits, ByteBits, SignExtended, Pending, Text, Symbol;
    var len := size;
    var length := |data|;
    count := 0;
    if encoded == null && len == 0 {
      len := length * 3;
      count := count + 1;
    }
    ghost var start, all := count, Base32(data);
    ghost var out: string := [];
    if length > 0 {
      var buffer := SignExtended(data[0]);
      var next, bitsLeft := 1, 8;
      PendingStart(data);
      while count < len && (bitsLeft > 0 || next < length)
        invariant bitsLeft <= 8 && 1 <= next <= length && count == start + |out|
        invariant all == out + Text(Pending(buffer, bitsLeft, data, next))
        invariant start == 0 ==> count <= len && len == size
        invariant start == 1 ==> encoded == null && len == 3 * length
        invariant encoded != null ==> encoded[..count] == out
        decreases 8 * (length - next) + bitsLeft
      {
        hide Text, Symbol;
        Drained(buffer, bitsLeft, data, next);
        ghost var before := out;
        var symbol;
        symbol, buffer, bitsLeft, next := NextSymbol(buffer, bitsLeft, data, next);
        if encoded != null {
          encoded[count] := symbol;
        }
        out := out + [symbol];
        Regroup(before, [symbol], Text(Pending(buffer, bitsLeft, data, next)));
        count := count + 1;
      }
      Drained(buffer, bitsLeft, data, next);
    }
    if count < len && encoded != null {
      encoded[count] := '\0';
    }
  }

  lemma Drained(buffer: bv16, bitsLeft: nat, data: seq<bv8>, next: nat)
    requires bitsLeft <= 12 && next <= |data|
    ensures bitsLeft == 0 && next == |data| <==> Text(Pending(buffer, bitsLeft, data, next)) == []
  {
    assert |Pending(buffer, bitsLeft, data, next)| == bitsLeft + 8 * (|data| - next);
  }

  // ---------- decoding ----------

  // The value of a symbol of the alphabet.
  function SymbolValue(c: char): nat {
    if 'A' <= c <= 'Z' then (c - 'A') as nat else if '2' <= c <= '7' then (c - '2') as nat + 26 else 0
  }

  function FiveBits(v: nat): (b: seq<bool>)
    ensures |b| == 5
  {
    [v / 16 % 2 == 1, v / 8 % 2 == 1, v / 4 % 2 == 1, v / 2 % 2 == 1, v % 2 == 1]
  }

  function TextBits(t: string): (b: seq<bool>)
    ensures |b| == 5 * |t|
  {
    if t == [] then [] else FiveBits(SymbolValue(t[0])) + TextBits(t[1..])
  }

  function ByteFrom(b: seq<bool>): bv8
    requires |b| == 8
  {
    (if b[0] then 0x80 else 0) | (if b[1] then 0x40 else 0) | (if b[2] then 0x20 else 0) | (if b[3] then 0x10 else 0)
    | (if b[4] then 0x08 else 0) | (if b[5] then 0x04 else 0) | (if b[6] then 0x02 else 0) | (if b[7] then 0x01 else 0)
  }

  // The whole bytes of a string of bits.
  function Bytes(bits: seq<bool>): seq<bv8> {
    if |bits| < 8 then [] else [ByteFrom(bits[..8])] + Bytes(bits[8..])
  }

  /** The decoder of section 6 of RFC 4648 for unpadded text. */
  function Decode(t: string): seq<bv8> {
    Bytes(TextBits(t))
  }

  lemma SymbolBits(g: seq<bool>)
    requires |g| == 5
    ensures FiveBits(SymbolValue(Symbol(Value(g)))) == g
  {
    SymbolValueInverse(Value(g));
    hide Symbol, SymbolValue;
    if g[0] {} else {}
    if g[1] {} else {}
    if g[2] {} else {}
    if g[3] {} else {}
    if g[4] {} else {}
  }

  lemma SymbolValueInverse(v: nat)
    requires v < 32
    ensures SymbolValue(Symbol(v)) == v
  {
  }

  /** The bits of the text are those encoded and fewer than five zeros. */
  lemma {:induction false} TextBitsOf(bits: seq<bool>) returns (zeros: nat)
    ensures zeros < 5 && TextBits(Text(bits)) == bits + Zeros(zeros)
    decreases |bits|
  {
    hide FiveBits, SymbolValue, Symbol, Value;
    if bits == [] {
      zeros := 0;
    } else if |bits| < 5 {
      zeros := 5 - |bits|;
      SymbolBits(bits + Zeros(zeros));
      assert [Symbol(Value(bits + Zeros(zeros)))][1..] == [];
    } else {
      zeros := TextBitsOf(bits[5..]);
      SymbolBits(bits[..5]);
      assert bits == bits[..5] + bits[5..];
      assert Text(bits)[1..] == Text(bits[5..]);
    }
  }

  lemma ByteBack(x: bv8)
    ensures ByteFrom(ByteBits(x)) == x
  {
    var b := ByteBits(x);
    assert b[0] == Bit8(x, 7) && b[1] == Bit8(x, 6) && b[2] == Bit8(x, 5) && b[3] == Bit8(x, 4);
    assert b[4] == Bit8(x, 3) && b[5] == Bit8(x, 2) && b[6] == Bit8(x, 1) && b[7] == Bit8(x, 0);
  }

  lemma {:induction false} BytesOf(data: seq<bv8>, tail: seq<bool>)
    requires |tail| < 8
    ensures Bytes(Bits(data) + tail) == data
  {
    if data == [] {
      assert Bits(data) + tail == tail;
    } else {
      ByteBack(data[0]);
      hide ByteFrom, ByteBits;
      var bits := Bits(data) + tail;
      assert bits[..8] == ByteBits(data[0]);
      assert bits[8..] == Bits(data[1..]) + tail;
      BytesOf(data[1..], tail);
    }
  }

  /** Every byte string comes back from its encoding. */
  lemma RoundTrip(data: seq<bv8>)
    ensures Decode(Base32(data)) == data
  {
    var zeros := TextBitsOf(Bits(data));
    BytesOf(data, Zeros(zeros));
  }

  /** A test vector of section 10 of RFC 4648: "fo". */
  lemma TestVector()
    ensures Base32([0x66, 0x6f]) == "MZXQ"
  {
    hide Text, Bits, Symbol, Value;
    VectorBits();
    var d := [true];
    var c := [true, false, true, true, true] + d;
    var b := [true, true, false, false, true] + c;
    VectorValues();
    TextStep([false, true, true, false, false], b, 12);
    TextStep([true, true, false, false, true], c, 25);
    TextStep([true, false, true, true, true], d, 23);
    TextLast();
    assert [Symbol(12)] + ([Symbol(25)] + ([Symbol(23)] + [Symbol(16)])) == "MZXQ" by { VectorSymbols(); }
  }

  lemma VectorBits()
    ensures Bits([0x66, 0x6f]) == [false, true, true, false, false]
                                  + ([true, true, false, false, true] + ([true, false, true, true, true] + [true]))
  {
    var f := BitsOfF();
    var o := BitsOfO();
    assert [0x66 as bv8, 0x6f][1..] == [0x6f] && [0x6f as bv8][1..] == [];
    assert Bits([]) == [];
    assert Bits([0x6f]) == o;
  }

  lemma TextStep(g: seq<bool>, rest: seq<bool>, v: nat)
    requires |g| == 5 && Value(g) == v
    ensures v < 32 && Text(g + rest) == [Symbol(v)] + Text(rest)
  {
    hide Value;
    assert (g + rest)[..5] == g && (g + rest)[5..] == rest;
  }

  lemma TextLast()
    ensures Text([true]) == [Symbol(16)]
  {
    assert [true] + Zeros(4) == [true, false, false, false, false];
  }

  lemma VectorValues()
    ensures Value([false, true, true, false, false]) == 12 && Value([true, true, false, false, true]) == 25
    ensures Value([true, false, true, true, true]) == 23
  {
  }

  lemma VectorSymbols()
    ensures Symbol(12) == 'M' && Symbol(25) == 'Z' && Symbol(23) == 'X' && Symbol(16) == 'Q'
  {
  }

  lemma BitsOfF() returns (f: seq<bool>)
    ensures f == ByteBits(0x66) == [false, true, true, false, false, true, true, false]
  {
    f := ByteBits(0x66);
    assert f[0] == false && f[1] && f[2] && !f[3] && !f[4] && f[5] && f[6] && !f[7];
  }

  lemma BitsOfO() returns (o: seq<bool>)
    ensures o == ByteBits(0x6f) == [false, true, true, false, true, true, true, true]
  {
    o := ByteBits(0x6f);
    assert o[0] == false && o[1] && o[2] && !o[3] && o[4] && o[5] && o[6] && o[7];
  }

  // ---------- dots ----------

  // A dot is put in after every so many characters: 32, or 30 on Windows.
  type Space = n: nat | n == 30 || n == 32 witness 32

  predicate DotBefore(i: nat, space: Space) {
    i % space == 0 && i != 0
  }

  /** The first n characters with dots. */
  function Dotted(s: string, n: nat, space: Space): (t: string)
    requires n <= |s|
  {
    if n == 0 then [] else Dotted(s, n - 1, space) + (if DotBefore(n - 1, space) then ['.'] else []) + [s[n - 1]]
  }

  method FillWithDots(encodedWithDots: array?<char>, data: string, len: nat, space: Space) returns (count: nat)
    requires encodedWithDots != null ==>
      var n := if len < |data| then len else |data|; |Dotted(data, n, space)| < encodedWithDots.Length
    modifies if encodedWithDots == null then {} else {encodedWithDots}
    ensures encodedWithDots == null ==> var n := if len == 0 then |data| else len; count == n / space + n + 1
    ensures encodedWithDots != null ==>
      var n := if len < |data| then len else |data|;
      count == |Dotted(data, n, space)| && encodedWithDots[..count] == Dotted(data, n, space)
      && encodedWithDots[count] == '\0'
  {
    if encodedWithDots == null {
      var n := if len == 0 then |data| else len;
      return n / space + n + 1;
    }
    count := 0;
    var i := 0;
    ghost var n := if len < |data| then len else |data|;
    while i < |data| && i < len
      invariant i <= n && count == |Dotted(data, i, space)| && |Dotted(data, n, space)| < encodedWithDots.Length
      invariant count < encodedWithDots.Length && encodedWithDots[..count] == Dotted(data, i, space)
      decreases n - i
    {
      DottedLonger(data, i + 1, n, space);
      if i % space == 0 && i != 0 {
        encodedWithDots[count] := '.';
        count := count + 1;
      }
      encodedWithDots[count] := data[i];
      count := count + 1;
      i := i + 1;
    }
    encodedWithDots[count] := '\0';
  }

  lemma {:induction false} DottedLonger(s: string, m: nat, n: nat, space: Space)
    requires m <= n <= |s|
    ensures |Dotted(s, m, space)| <= |Dotted(s, n, space)|
  {
    if m < n {
      DottedLonger(s, m, n - 1, space);
    }
  }

  /** One dot for every full label that is followed by another character. */
  lemma {:induction false} DottedLength(s: string, n: nat, space: Space)
    requires n <= |s|
    ensures |Dotted(s, n, space)| == if n == 0 then 0 else n + (n - 1) / space
  {
    if n > 0 {
      DottedLength(s, n - 1, space);
      if space == 32 {} else {}
    }
  }

  // How many characters at the end of t are not dots.
  function LastLabel(t: string): (n: nat)
    ensures n <= |t|
  {
    if t == [] || t[|t| - 1] == '.' then 0 else 1 + LastLabel(t[..|t| - 1])
  }

  /** No label, whole or not, is longer than n. */
  ghost predicate LabelsFit(t: string, n: nat) {
    forall k :: 0 <= k <= |t| ==> LastLabel(t[..k]) <= n
  }

  function Undotted(t: string): string {
    if t == [] then []
    else Undotted(t[..|t| - 1]) + if t[|t| - 1] == '.' then [] else [t[|t| - 1]]
  }

  lemma LabelsFitSnoc(t: string, c: char, n: nat)
    requires LabelsFit(t, n) && LastLabel(t + [c]) <= n
    ensures LabelsFit(t + [c], n)
  {
    forall k | 0 <= k <= |t| + 1 ensures LastLabel((t + [c])[..k]) <= n {
      if k <= |t| {
        assert (t + [c])[..k] == t[..k];
      } else {
        assert (t + [c])[..k] == t + [c];
      }
    }
  }

  lemma Snoc(t: string, c: char)
    ensures LastLabel(t + [c]) == if c == '.' then 0 else 1 + LastLabel(t)
    ensures Undotted(t + [c]) == Undotted(t) + if c == '.' then [] else [c]
  {
    assert (t + [c])[..|t|] == t;
  }

  lemma Columns(n: nat, space: Space)
    requires n > 0
    ensures DotBefore(n - 1, space) ==> (n - 1) % space == 0
    ensures !DotBefore(n - 1, space) && n > 1 ==> (n - 1) % space == (n - 2) % space + 1
    ensures (n - 1) % space + 1 <= space
  {
    if n > 1 {
      if space == 32 { Next32(n - 2); } else { Next30(n - 2); }
    }
  }

  lemma Next32(i: nat)
    ensures (i + 1) % 32 == if i % 32 == 31 then 0 else i % 32 + 1
  {
  }

  lemma Next30(i: nat)
    ensures (i + 1) % 30 == if i % 30 == 29 then 0 else i % 30 + 1
  {
  }

  lemma DottedNone(s: string, space: Space)
    ensures Dotted(s, 0, space) == []
  {
  }

  lemma DottedStep(s: string, n: nat, space: Space)
    requires 0 < n <= |s|
    ensures Dotted(s, n, space) ==
            (if DotBefore(n - 1, space) then Dotted(s, n - 1, space) + ['.'] else Dotted(s, n - 1, space)) + [s[n - 1]]
  {
  }

  /** The labels are short enough for a host name, and removing the dots gives the text back. */
  lemma {:induction false} DottedLabels(s: string, n: nat, space: Space)
    requires n <= |s| && '.' !in s
    ensures LabelsFit(Dotted(s, n, space), space) && Undotted(Dotted(s, n, space)) == s[..n]
    ensures LastLabel(Dotted(s, n, space)) == if n == 0 then 0 else (n - 1) % space + 1
  {
    hide LabelsFit, LastLabel, Undotted, Dotted, DotBefore;
    if n > 0 {
      DottedLabels(s, n - 1, space);
      var before, c := Dotted(s, n - 1, space), s[n - 1];
      var dotted := if DotBefore(n - 1, space) then before + ['.'] else before;
      if DotBefore(n - 1, space) {
        Snoc(before, '.');
        LabelsFitSnoc(before, '.', space);
      }
      Columns(n, space);
      DottedStep(s, n, space);
      Snoc(dotted, c);
      LabelsFitSnoc(dotted, c, space);
      assert s[..n] == s[..n - 1] + [c];
    } else {
      EmptyLabels(space);
      DottedNone(s, space);
    }
  }

  lemma EmptyLabels(n: nat)
    ensures LabelsFit([], n) && LastLabel([]) == 0 && Undotted([]) == []
  {
  }

  // ---------- host names ----------

  /** The length computed in advance, with room for a timestamp of ten digits. */
  function HostnameLength(encoded: nat, space: Space, suffix: string): nat {
    encoded / space + encoded + 1 + |suffix| + 10 + 2 + 1 - 2
  }

  function Hostname(data: seq<bv8>, space: Space, epoch: string, suffix: string): string {
    var t := Base32(data);
    Dotted(t, |t|, space) + ['.'] + epoch + ['.'] + suffix
  }

  /** The host name and its terminator fit into the length computed in advance. */
  lemma HostnameFits(data: seq<bv8>, space: Space, epoch: string, suffix: string)
    requires |epoch| == 10
    ensures |Hostname(data, space, epoch, suffix)| + 1 <= HostnameLength(|Base32(data)| + 1, space, suffix)
  {
    var n := |Base32(data)|;
    DottedLength(Base32(data), n, space);
    if space == 32 {} else {}
  }

  /** The dry run: the length to allocate is enough for every timestamp of ten digits. */
  method PrepareHostnameLength(data: seq<bv8>, space: Space, suffix: string) returns (length: nat)
    ensures length == HostnameLength(|Base32(data)| + 1, space, suffix)
    ensures forall epoch: string :: |epoch| == 10 ==> |Hostname(data, space, epoch, suffix)| < length
  {
    var encodedLength := Base32Encode(null, data, 0);
    var dottedLength := FillWithDots(null, "", encodedLength, space);
    length := dottedLength + |suffix| + 10 + 2 + 1 - 2;
    forall epoch: string | |epoch| == 10 ensures |Hostname(data, space, epoch, suffix)| < length {
      HostnameFits(data, space, epoch, suffix);
    }
  }

  lemma {:induction false} NoDots(bits: seq<bool>)
    ensures '.' !in Text(bits)
    decreases |bits|
  {
    if |bits| >= 5 {
      NoDots(bits[5..]);
    }
  }

  /** The dotted encoding of every byte string keeps to the label length and decodes to it. */
  lemma HostnameDecodes(data: seq<bv8>, space: Space)
    ensures var t := Dotted(Base32(data), |Base32(data)|, space);
            LabelsFit(t, space) && Decode(Undotted(t)) == data
  {
    var t := Base32(data);
    NoDots(Bits(data));
    DottedLabels(t, |t|, space);
    assert t[..|t|] == t;
    RoundTrip(data);
  }
}
