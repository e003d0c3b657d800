/** The EDID block announced to video sources: 128 bytes written in place over a buffer, with timings packed bit by bit. */
module Edid {
  import DivMod
  import opened Types

  const SIZE := 128

  /** What an assignment to a byte keeps of a number. */
  function Low(x: int): byte { (x % 256) as byte }

  /** Bitwise or of two unsigned numbers. */
  function Or(a: nat, b: nat): nat {
    if a == 0 && b == 0 then 0 else 2 * Or(a / 2, b / 2) + (if a % 2 == 1 || b % 2 == 1 then 1 else 0)
  }

  lemma {:induction false} OrZero(a: nat)
    ensures Or(a, 0) == a
  {
    if a > 0 {
      OrZero(a / 2);
    }
  }

  lemma OrShiftOne(a: nat, b: nat)
    ensures Or(2 * a, b) == 2 * Or(a, b / 2) + b % 2
  {
    assert (2 * a) / 2 == a && (2 * a) % 2 == 0;
  }

  lemma OrShiftTwo(a: nat, b: nat)
    ensures Or(4 * a, b) == 4 * Or(a, b / 4) + b % 4
  {
    hide Or;
    OrShiftOne(2 * a, b);
    OrShiftOne(a, b / 2);
    assert b / 2 / 2 == b / 4;
  }

  /** The low four bits come from `b` alone. */
  lemma OrNibble(a: nat, b: nat)
    ensures Or(16 * a, b) == 16 * Or(a, b / 16) + b % 16
  {
    hide Or;
    OrShiftTwo(4 * a, b);
    OrShiftTwo(a, b / 4);
    assert b / 4 / 4 == b / 16;
  }

  lemma OrNibbles(a: nat, b: nat)
    requires b < 16
    ensures Or(16 * a, b) == 16 * a + b
  {
    OrNibble(a, b);
    OrZero(a);
  }

  lemma OrPair(a: nat, b: nat)
    requires b < 4
    ensures Or(4 * a, b) == 4 * a + b
  {
    OrShiftTwo(a, b);
    OrZero(a);
  }

  // ---------- timings ----------

  /** A video timing; the pixel clock is in tens of kHz. */
  datatype Timing = Timing(pixelClock: nat, hActive: nat, hBlanking: nat, hSyncOffset: nat, hSyncWidth: nat,
                           vActive: nat, vBlanking: nat, vSyncOffset: nat, vSyncWidth: nat,
                           flags: nat, established: nat)

  /** Two 12-bit values share a byte for their upper four bits each. */
  function UpperNibbles(a: nat, b: nat): nat { Or((a / 256) * 16, b / 256) }

  /** The lower four bits of the vertical sync offset and width. */
  function SyncNibbles(offset: nat, width: nat): nat { Or((offset % 16) * 16, width % 16) }

  /** The upper two bits of all sync offsets and widths. */
  function SyncPairs(t: Timing): nat {
    Or(Or(Or((t.hSyncOffset / 256 % 4) * 64, (t.hSyncWidth / 256 % 4) * 16), (t.vSyncOffset / 16 % 4) * 4),
       t.vSyncWidth / 16 % 4)
  }

  /** Image size at 64 pixels to a centimetre, in millimetres; the product wraps at 32 bits. */
  function ImageSize(active: nat): nat { 10 * active % 0x1_0000_0000 / 64 }

  function ActiveBytes(t: Timing): (s: seq<byte>)
    ensures |s| == 8
  {
    [Low(t.pixelClock), Low(t.pixelClock / 256),
     Low(t.hActive), Low(t.hBlanking), Low(UpperNibbles(t.hActive, t.hBlanking)),
     Low(t.vActive), Low(t.vBlanking), Low(UpperNibbles(t.vActive, t.vBlanking))]
  }

  function SyncBytes(t: Timing): (s: seq<byte>)
    ensures |s| == 4
  {
    [Low(t.hSyncOffset), Low(t.hSyncWidth), Low(SyncNibbles(t.vSyncOffset, t.vSyncWidth)), Low(SyncPairs(t))]
  }

  function ImageBytes(t: Timing): (s: seq<byte>)
    ensures |s| == 6
  {
    var h, v := ImageSize(t.hActive), ImageSize(t.vActive);
    [Low(h), Low(v), Low(UpperNibbles(h, v)), 0, 0, Low(t.flags)]
  }

  /** The descriptor as it goes over the wire. */
  function TimingBytes(t: Timing): (s: seq<byte>)
    ensures |s| == 18
  {
    ActiveBytes(t) + SyncBytes(t) + ImageBytes(t)
  }

  /** What a receiver of the descriptor reads, field by field; `established` is not part of a descriptor. */
  function DecodeTiming(s: seq<byte>, established: nat): Timing
    requires |s| == 18
  {
    var n := seq(18, k requires 0 <= k < 18 => s[k] as nat);
    Timing(n[0] + 256 * n[1],
           n[2] + 256 * (n[4] / 16), n[3] + 256 * (n[4] % 16),
           n[8] + 256 * (n[11] / 64), n[9] + 256 * (n[11] / 16 % 4),
           n[5] + 256 * (n[7] / 16), n[6] + 256 * (n[7] % 16),
           n[10] / 16 + 16 * (n[11] / 4 % 4), n[10] % 16 + 16 * (n[11] % 4),
           n[17], established)
  }

  /** Every field fits its bits: 16 for the pixel clock, 12 for active and blanking, 10 and 6 for the sync fields. */
  predicate InRange(t: Timing) {
    && t.pixelClock < 65536 && t.flags < 256
    && t.hActive < 4096 && t.hBlanking < 4096 && t.vActive < 4096 && t.vBlanking < 4096
    && t.hSyncOffset < 1024 && t.hSyncWidth < 1024 && t.vSyncOffset < 64 && t.vSyncWidth < 64
  }

  lemma NibblesOfByte(q: nat, r: nat)
    requires r < 16
    ensures (16 * q + r) % 256 % 16 == r && (16 * q + r) % 256 / 16 == q % 16
  {
    var u, v := q / 16, q % 16;
    DivMod.Unique(16 * q + r, 256, u, 16 * v + r);
    DivMod.Unique(16 * v + r, 16, v, r);
  }

  lemma TwoDigits(d: nat, m: nat, u: nat, v: nat, r: nat)
    requires v < m && r < d
    ensures (d * (m * u + v) + r) % (d * m) == r + d * v
  {
    DivMod.Monotone(d, v + 1, m);
    assert d * (m * u + v) == d * m * u + d * v;
    DivMod.Unique(d * m * u + (r + d * v), d * m, u, r + d * v);
  }

  lemma Digits(x: nat, d: nat, m: nat)
    requires d > 0 && m > 0
    ensures x % d + d * (x / d % m) == x % (d * m)
  {
    DivMod.Recompose(x, d);
    DivMod.Recompose(x / d, m);
    TwoDigits(d, m, x / d / m, x / d % m, x % d);
  }

  /** A field put together from its low bits and its upper bits is the value modulo its range. */
  lemma PutTogether(x: nat)
    ensures x % 256 + 256 * (x / 256 % 256) == x % 65536
    ensures x % 256 + 256 * (x / 256 % 16) == x % 4096
    ensures x % 256 + 256 * (x / 256 % 4) == x % 1024
    ensures x % 16 + 16 * (x / 16 % 4) == x % 64
  {
    Digits(x, 256, 256);
    Digits(x, 256, 16);
    Digits(x, 256, 4);
    Digits(x, 16, 4);
  }

  /** A shared byte gives both values back, modulo their range, if the lower one fits. */
  lemma NibblesDecode(a: nat, b: nat)
    ensures var h := Low(UpperNibbles(a, b)) as nat;
            && b % 256 + 256 * (h % 16) == b % 4096
            && (b < 4096 ==> a % 256 + 256 * (h / 16) == a % 4096)
  {
    hide Or;
    OrNibble(a / 256, b / 256);
    NibblesOfByte(Or(a / 256, b / 256 / 16), b / 256 % 16);
    PutTogether(b);
    if b < 4096 {
      OrZero(a / 256);
      PutTogether(a);
    }
  }

  lemma SyncNibblesDecode(offset: nat, width: nat)
    ensures var n := Low(SyncNibbles(offset, width)) as nat; n / 16 == offset % 16 && n % 16 == width % 16
  {
    hide Or;
    OrNibbles(offset % 16, width % 16);
    NibblesOfByte(offset % 16, width % 16);
  }

  lemma SyncPairsDecode(t: Timing)
    ensures var n := Low(SyncPairs(t)) as nat;
            && n / 64 == t.hSyncOffset / 256 % 4 && n / 16 % 4 == t.hSyncWidth / 256 % 4
            && n / 4 % 4 == t.vSyncOffset / 16 % 4 && n % 4 == t.vSyncWidth / 16 % 4
  {
    hide Or;
    PairsOfByte(t.hSyncOffset / 256 % 4, t.hSyncWidth / 256 % 4, t.vSyncOffset / 16 % 4, t.vSyncWidth / 16 % 4);
  }

  lemma PairsOfByte(a: nat, b: nat, c: nat, d: nat)
    requires a < 4 && b < 4 && c < 4 && d < 4
    ensures var n := Low(Or(Or(Or(a * 64, b * 16), c * 4), d)) as nat;
            n / 64 == a && n / 16 % 4 == b && n / 4 % 4 == c && n % 4 == d
  {
    hide Or;
    FourPairs(a, b, c, d);
    var n := 64 * a + 16 * b + 4 * c + d;
    DivMod.Unique(n, 256, 0, n);
    DivMod.Unique(n, 16, 4 * a + b, 4 * c + d);
    DivMod.Unique(n, 4, 16 * a + 4 * b + c, d);
  }

  lemma FourPairs(a: nat, b: nat, c: nat, d: nat)
    requires a < 4 && b < 4 && c < 4 && d < 4
    ensures Or(Or(Or(a * 64, b * 16), c * 4), d) == 64 * a + 16 * b + 4 * c + d
  {
    hide Or;
    OrNibble(4 * a, b * 16);
    OrPair(a, b);
    OrNibbles(4 * a + b, c * 4);
    OrPair(16 * a + 4 * b + c, d);
  }

  /** Every field comes back modulo its range, the upper of two values sharing a byte if the lower one fits. */
  lemma FieldsDecode(t: Timing)
    ensures var d := DecodeTiming(TimingBytes(t), t.established);
            && d.pixelClock == t.pixelClock % 65536 && d.flags == t.flags % 256
            && d.hBlanking == t.hBlanking % 4096 && (t.hBlanking < 4096 ==> d.hActive == t.hActive % 4096)
            && d.vBlanking == t.vBlanking % 4096 && (t.vBlanking < 4096 ==> d.vActive == t.vActive % 4096)
            && d.hSyncOffset == t.hSyncOffset % 1024 && d.hSyncWidth == t.hSyncWidth % 1024
            && d.vSyncOffset == t.vSyncOffset % 64 && d.vSyncWidth == t.vSyncWidth % 64
            && d.established == t.established
  {
    hide UpperNibbles, SyncNibbles, SyncPairs, ImageSize;
    NibblesDecode(t.hActive, t.hBlanking);
    NibblesDecode(t.vActive, t.vBlanking);
    SyncNibblesDecode(t.vSyncOffset, t.vSyncWidth);
    SyncPairsDecode(t);
    PutTogether(t.pixelClock);
    PutTogether(t.hSyncOffset);
    PutTogether(t.hSyncWidth);
    PutTogether(t.vSyncOffset);
    PutTogether(t.vSyncWidth);
  }

  /** Decoding the packed descriptor recovers the timing exactly when every field fits. */
  lemma TimingRoundTrip(t: Timing)
    ensures DecodeTiming(TimingBytes(t), t.established) == t <==> InRange(t)
  {
    hide DecodeTiming, TimingBytes;
    FieldsDecode(t);
  }

  // ---------- the identity ----------

  const HEADER: seq<byte> := [0, 0xff, 0xff, 0xff, 0xff, 0xff, 0xff, 0]

  predicate IsLetter(c: char) { 'A' <= c <= 'Z' }

  /** Who made the display: three letters, a product code and the year. */
  datatype Identity = Identity(manufacturer: string, productCode: seq<byte>, year: int)

  predicate GoodIdentity(id: Identity) {
    |id.manufacturer| == 3 && (forall c <- id.manufacturer :: IsLetter(c)) && |id.productCode| == 2
  }

  /** A letter as a number from 1. */
  function Letter(c: char): nat
    requires IsLetter(c)
  {
    c as int - 'A' as int + 1
  }

  /** Three letters in five bits each. */
  function ManufacturerBytes(m: string): (s: seq<byte>)
    requires |m| == 3 && forall c <- m :: IsLetter(c)
    ensures |s| == 2
  {
    var i, j, k := Letter(m[0]), Letter(m[1]), Letter(m[2]);
    [Low(Or(i * 4, j / 8)), Low(Or(j % 8 * 32, k))]
  }

  function DecodeLetter(n: nat): char
    requires n < 32
  {
    (n + 'A' as int - 1) as char
  }

  function DecodeManufacturer(s: seq<byte>): string
    requires |s| == 2
  {
    var a, b := s[0] as nat, s[1] as nat;
    [DecodeLetter(a / 4 % 32), DecodeLetter(a % 4 * 8 + b / 32), DecodeLetter(b % 32)]
  }

  /** Five bits and the upper two of the next five share the first byte. */
  lemma FirstLetterByte(i: nat, upper: nat)
    requires i < 32 && upper < 4
    ensures var a := Low(Or(i * 4, upper)) as nat; a / 4 == i && a % 4 == upper
  {
    hide Or;
    OrPair(i, upper);
    DivMod.Unique(4 * i + upper, 4, i, upper);
  }

  /** The lower three bits and the last five share the second byte. */
  lemma LastLetterByte(lower: nat, k: nat)
    requires lower < 8 && k < 32
    ensures var b := Low(Or(lower * 32, k)) as nat; b / 32 == lower && b % 32 == k
  {
    hide Or;
    OrShiftOne(16 * lower, k);
    OrNibbles(lower, k / 2);
    assert lower * 32 == 2 * (16 * lower);
    DivMod.Unique(32 * lower + k, 32, lower, k);
  }

  lemma ManufacturerRoundTrip(m: string)
    requires |m| == 3 && forall c <- m :: IsLetter(c)
    ensures DecodeManufacturer(ManufacturerBytes(m)) == m
  {
    hide Or;
    assert IsLetter(m[0]) && IsLetter(m[1]) && IsLetter(m[2]);
    FirstLetterByte(Letter(m[0]), Letter(m[1]) / 8);
    LastLetterByte(Letter(m[1]) % 8, Letter(m[2]));
  }

  // ---------- the block ----------

  function MakerBytes(id: Identity): (s: seq<byte>)
    requires GoodIdentity(id)
    ensures |s| == 12
  {
    HEADER + ManufacturerBytes(id.manufacturer) + id.productCode
  }

  /** Serial number, week and year, EDID version 1.3. */
  function DateBytes(id: Identity): (s: seq<byte>)
    ensures |s| == 8
  {
    [0, 0, 0, 0, 0, Low(id.year - 1990), 1, 3]
  }

  /** A digital input, the image size in centimetres, gamma, features. */
  function FeatureBytes(t: Timing): (s: seq<byte>)
    ensures |s| == 5
  {
    [0x80, Low(t.hActive / 64), Low(t.vActive / 64), 0x50, 6]
  }

  /** No colour characteristics, the established timings, and unused standard timings. */
  function ModeBytes(t: Timing): (s: seq<byte>)
    ensures |s| == 29
  {
    seq(10, _ => 0) + [Low(t.established / 256), Low(t.established), 0] + seq(16, _ => 1)
  }

  /** The fields before the data blocks. */
  function IdentityBytes(id: Identity, t: Timing): (s: seq<byte>)
    requires GoodIdentity(id)
    ensures |s| == 54
  {
    MakerBytes(id) + DateBytes(id) + FeatureBytes(t) + ModeBytes(t)
  }

  /** What completes descriptor data of 13 bytes behind the first `start`: a line feed and blanks. */
  function Padding(start: nat): (s: seq<byte>)
    requires start <= 13
    ensures |s| == 13 - start
  {
    if start == 13 then [] else [0x0a] + seq(12 - start, _ => 0x20)
  }

  function Padded(text: seq<byte>): (s: seq<byte>)
    requires |text| <= 13
    ensures |s| == 13
  {
    text + Padding(|text|)
  }

  function NameBytes(name: seq<byte>): (s: seq<byte>)
    ensures |s| == 18
  {
    [0, 0, 0, 0xfc, 0] + Padded(Cut(name))
  }

  const RATES: seq<byte> := [50, 60, 31, 68, 8, 0]

  const RANGE_BYTES: seq<byte> := [0, 0, 0, 0xfd, 0] + Padded(RATES)

  const UNUSED_BYTES: seq<byte> := [0, 0, 0, 0x10, 0, 0, 0, 0, 0, 0, 0, 0, 0, 0, 0, 0, 0, 0]

  /** The four data blocks: one or two timings first, then the name and the range, and an unused one to fill up. */
  function DataBlocks(name: seq<byte>, t: Timing, secondary: Option<Timing>): (s: seq<byte>)
    ensures |s| == 72
  {
    match secondary
    case None => TimingBytes(t) + NameBytes(name) + RANGE_BYTES + UNUSED_BYTES
    case Some(u) => TimingBytes(t) + TimingBytes(u) + NameBytes(name) + RANGE_BYTES
  }

  function Sum(s: seq<byte>): nat {
    if s == [] then 0 else Sum(s[..|s| - 1]) + s[|s| - 1] as nat
  }

  /** The byte that makes the sum a multiple of 256. */
  function Checksum(s: seq<byte>): byte { Low(0 - Sum(s)) }

  function EdidBytes(id: Identity, name: seq<byte>, t: Timing, secondary: Option<Timing>): (s: seq<byte>)
    requires GoodIdentity(id)
    ensures |s| == SIZE
  {
    var s := IdentityBytes(id, t) + DataBlocks(name, t, secondary) + [0];
    s + [Checksum(s)]
  }

  /** A block announces itself with the header, and its bytes add up to a multiple of 256. */
  predicate IsValid(s: seq<byte>) {
    |s| == SIZE && HEADER <= s && Sum(s) % 256 == 0
  }

  lemma ChecksumCompletes(s: seq<byte>, c: byte)
    ensures Sum(s + [c]) % 256 == 0 <==> c == Checksum(s)
  {
    assert (s + [c])[..|s|] == s;
  }

  /** Where the parts of a block are. */
  lemma PartsOfBlock(id: Identity, name: seq<byte>, t: Timing, secondary: Option<Timing>)
    requires GoodIdentity(id)
    ensures var s := EdidBytes(id, name, t, secondary);
            && s[..54] == IdentityBytes(id, t) && s[54..72] == TimingBytes(t)
            && (secondary.Some? ==> s[72..90] == TimingBytes(secondary.value))
  {
    hide TimingBytes, IdentityBytes, NameBytes, Checksum;
  }

  lemma PartsOfIdentity(id: Identity, t: Timing)
    requires GoodIdentity(id)
    ensures var s := IdentityBytes(id, t);
            s[..8] == HEADER && s[8..10] == ManufacturerBytes(id.manufacturer) && s[17] == Low(id.year - 1990)
  {
    hide ManufacturerBytes, Low;
  }

  /** Every generated block is valid. */
  lemma GeneratedIsValid(id: Identity, name: seq<byte>, t: Timing, secondary: Option<Timing>)
    requires GoodIdentity(id)
    ensures IsValid(EdidBytes(id, name, t, secondary))
  {
    hide IdentityBytes, DataBlocks, Sum, Checksum;
    var s := EdidBytes(id, name, t, secondary);
    ChecksumCompletes(s[..127], s[127]);
    assert s[..127] + [s[127]] == s;
    PartsOfBlock(id, name, t, secondary);
    PartsOfIdentity(id, t);
    assert HEADER == s[..54][..8];
  }

  /** A generated block decodes to the identity, and to each timing exactly when its fields fit. */
  lemma GeneratedDecodes(id: Identity, name: seq<byte>, t: Timing, secondary: Option<Timing>)
    requires GoodIdentity(id)
    ensures var s := EdidBytes(id, name, t, secondary);
            && DecodeManufacturer(s[8..10]) == id.manufacturer
            && (1990 <= id.year < 2246 <==> s[17] as int + 1990 == id.year)
            && (DecodeTiming(s[54..72], t.established) == t <==> InRange(t))
            && (secondary.Some? ==>
                  (DecodeTiming(s[72..90], secondary.value.established) == secondary.value <==> InRange(secondary.value)))
  {
    hide EdidBytes, DecodeTiming, TimingBytes, DecodeManufacturer, ManufacturerBytes, IdentityBytes, InRange;
    var s := EdidBytes(id, name, t, secondary);
    PartsOfBlock(id, name, t, secondary);
    PartsOfIdentity(id, t);
    assert s[8..10] == s[..54][8..10] && s[17] == s[..54][17];
    ManufacturerRoundTrip(id.manufacturer);
    TimingRoundTrip(t);
    if secondary.Some? {
      TimingRoundTrip(secondary.value);
    }
  }

  /** The text of a descriptor: up to the line feed, if there is one. */
  function DecodeText(data: seq<byte>): seq<byte> {
    if data == [] || data[0] == 0x0a then [] else [data[0]] + DecodeText(data[1..])
  }

  lemma {:induction false} TextRoundTrip(text: seq<byte>, rest: seq<byte>)
    requires 0x0a !in text && (rest == [] || rest[0] == 0x0a)
    ensures DecodeText(text + rest) == text
  {
    if text == [] {
      assert text + rest == rest;
    } else {
      TextRoundTrip(text[1..], rest);
      assert (text + rest)[1..] == text[1..] + rest;
    }
  }

  lemma {:induction false} DecodedTextIsPlain(data: seq<byte>)
    ensures 0x0a !in DecodeText(data)
  {
    if data != [] && data[0] != 0x0a {
      DecodedTextIsPlain(data[1..]);
    }
  }

  /** As much of a name as a descriptor holds. */
  function Cut(name: seq<byte>): seq<byte> {
    if |name| < 13 then name else name[..13]
  }

  /** The monitor name comes back, cut to 13 characters, exactly when it has no line feed in these. */
  lemma NameRoundTrip(name: seq<byte>)
    ensures DecodeText(NameBytes(name)[5..]) == Cut(name) <==> 0x0a !in Cut(name)
  {
    var text := Cut(name);
    assert NameBytes(name)[5..] == text + Padding(|text|);
    DecodedTextIsPlain(NameBytes(name)[5..]);
    if 0x0a !in text {
      TextRoundTrip(text, Padding(|text|));
    }
  }

  // ---------- writing and checking a block in place ----------

  method ComputeChecksum(buf: array<byte>) returns (c: byte)
    requires buf.Length == SIZE
    ensures c == Checksum(buf[..127])
  {
    var sum: byte := 0;
    var i := 0;
    while i < 127
      invariant 0 <= i <= 127 && sum as int == Sum(buf[..i]) % 256
    {
      assert buf[..i + 1][..i] == buf[..i];
      sum := Low(sum as int + buf[i] as int);
      i := i + 1;
    }
    c := Low(0 - sum as int);
  }

  method ValidateEdid(buf: array<byte>) returns (ok: bool)
    requires buf.Length == SIZE
    ensures ok <==> IsValid(buf[..])
  {
    var c := ComputeChecksum(buf);
    ChecksumCompletes(buf[..127], buf[127]);
    assert buf[..127] + [buf[127]] == buf[..];
    assert HEADER <= buf[..] <==> buf[..8] == HEADER;
    ok := buf[..8] == HEADER && c == buf[127];
  }

  method WriteTiming(buf: array<byte>, at: nat, t: Timing)
    requires at + 18 <= buf.Length
    modifies buf
    ensures buf[..at + 18] == old(buf[..at]) + TimingBytes(t) && buf[at + 18..] == old(buf[at + 18..])
  {
    hide ActiveBytes, SyncBytes, ImageBytes;
    WriteActive(buf, at, t);
    WriteSync(buf, at + 8, t);
    WriteImage(buf, at + 12, t);
  }

  method WriteActive(buf: array<byte>, at: nat, t: Timing)
    requires at + 8 <= buf.Length
    modifies buf
    ensures buf[..at + 8] == old(buf[..at]) + ActiveBytes(t) && buf[at + 8..] == old(buf[at + 8..])
  {
    hide Low, UpperNibbles;
    buf[at], buf[at + 1] := Low(t.pixelClock), Low(t.pixelClock / 256);
    buf[at + 2], buf[at + 3] := Low(t.hActive), Low(t.hBlanking);
    buf[at + 4] := Low(UpperNibbles(t.hActive, t.hBlanking));
    buf[at + 5], buf[at + 6] := Low(t.vActive), Low(t.vBlanking);
    buf[at + 7] := Low(UpperNibbles(t.vActive, t.vBlanking));
  }

  method WriteSync(buf: array<byte>, at: nat, t: Timing)
    requires at + 4 <= buf.Length
    modifies buf
    ensures buf[..at + 4] == old(buf[..at]) + SyncBytes(t) && buf[at + 4..] == old(buf[at + 4..])
  {
    hide Low, SyncNibbles, SyncPairs;
    buf[at], buf[at + 1] := Low(t.hSyncOffset), Low(t.hSyncWidth);
    buf[at + 2], buf[at + 3] := Low(SyncNibbles(t.vSyncOffset, t.vSyncWidth)), Low(SyncPairs(t));
  }

  method WriteImage(buf: array<byte>, at: nat, t: Timing)
    requires at + 6 <= buf.Length
    modifies buf
    ensures buf[..at + 6] == old(buf[..at]) + ImageBytes(t) && buf[at + 6..] == old(buf[at + 6..])
  {
    hide Low, UpperNibbles, ImageSize;
    var h, v := ImageSize(t.hActive), ImageSize(t.vActive);
    buf[at], buf[at + 1], buf[at + 2] := Low(h), Low(v), Low(UpperNibbles(h, v));
    buf[at + 3], buf[at + 4] := 0, 0;
    buf[at + 5] := Low(t.flags);
  }

  method SetDescriptorHeader(buf: array<byte>, at: nat, dataType: byte)
    requires at + 5 <= buf.Length
    modifies buf
    ensures buf[..at + 5] == old(buf[..at]) + [0, 0, 0, dataType, 0] && buf[at + 5..] == old(buf[at + 5..])
  {
    buf[at], buf[at + 1], buf[at + 2], buf[at + 4] := 0, 0, 0, 0;
    buf[at + 3] := dataType;
  }

  /** Completes the descriptor data at `at`, of which `start` bytes are there. */
  method WritePadding(buf: array<byte>, at: nat, start: nat)
    requires start <= 13 && at + 13 <= buf.Length
    modifies buf
    ensures buf[..at + 13] == old(buf[..at + start]) + Padding(start) && buf[at + 13..] == old(buf[at + 13..])
  {
    if start >= 13 {
      return;
    }
    buf[at + start] := 0x0a;
    var pos := start + 1;
    while pos < 13
      invariant start < pos <= 13 && buf[at + start] == 0x0a
      invariant buf[..at + start] == old(buf[..at + start]) && buf[at + 13..] == old(buf[at + 13..])
      invariant forall k :: at + start < k < at + pos ==> buf[k] == 0x20
    {
      buf[at + pos] := 0x20;
      pos := pos + 1;
    }
    assert buf[at + start..at + 13] == Padding(start);
  }

  /** `name` is the string up to its terminator. */
  method WriteMonitorName(buf: array<byte>, at: nat, name: seq<byte>)
    requires at + 18 <= buf.Length
    modifies buf
    ensures buf[..at + 18] == old(buf[..at]) + NameBytes(name) && buf[at + 18..] == old(buf[at + 18..])
  {
    hide Padding;
    SetDescriptorHeader(buf, at, 0xfc);
    ghost var front, back := buf[..at + 5], buf[at + 18..];
    var i := WriteName(buf, at + 5, name);
    assert buf[at + 18..] == back by {
      assert buf[at + 18..] == buf[at + 5 + i..][13 - i..];
    }
    assert buf[..at + 5 + i] == front + name[..i];
    WritePadding(buf, at + 5, i);
    assert name[..i] == Cut(name);
    assert buf[..at + 18] == front + (name[..i] + Padding(i));
  }

  /** The characters of the name, and how many there are. */
  method WriteName(buf: array<byte>, at: nat, name: seq<byte>) returns (i: nat)
    requires at + 13 <= buf.Length
    modifies buf
    ensures i == if |name| < 13 then |name| else 13
    ensures buf[..at] == old(buf[..at]) && buf[at..at + i] == name[..i] && buf[at + i..] == old(buf[at + i..])
  {
    i := 0;
    while i < 13 && i < |name|
      invariant 0 <= i <= 13 && i <= |name|
      invariant buf[..at] == old(buf[..at]) && buf[at..at + i] == name[..i] && buf[at + i..] == old(buf[at + i..])
    {
      buf[at + i] := name[i];
      i := i + 1;
    }
  }

  method WriteMonitorRange(buf: array<byte>, at: nat)
    requires at + 18 <= buf.Length
    modifies buf
    ensures buf[..at + 18] == old(buf[..at]) + RANGE_BYTES && buf[at + 18..] == old(buf[at + 18..])
  {
    hide Padding;
    SetDescriptorHeader(buf, at, 0xfd);
    WriteRates(buf, at + 5);
    WritePadding(buf, at + 5, 6);
  }

  /** Field rates in Hz, line rates in kHz, and the pixel clock in tens of MHz. */
  method WriteRates(buf: array<byte>, at: nat)
    requires at + 6 <= buf.Length
    modifies buf
    ensures buf[..at + 6] == old(buf[..at]) + RATES && buf[at + 6..] == old(buf[at + 6..])
  {
    buf[at], buf[at + 1], buf[at + 2] := 50, 60, 31;
    buf[at + 3], buf[at + 4], buf[at + 5] := 68, 8, 0;
  }

  method WriteUnused(buf: array<byte>, at: nat)
    requires at + 18 <= buf.Length
    modifies buf
    ensures buf[..at + 18] == old(buf[..at]) + UNUSED_BYTES && buf[at + 18..] == old(buf[at + 18..])
  {
    forall k | 0 <= k < 18 {
      buf[at + k] := 0;
    }
    buf[at + 3] := 0x10;
  }

  method WriteIdentity(buf: array<byte>, id: Identity, t: Timing)
    requires buf.Length == SIZE && GoodIdentity(id)
    modifies buf
    ensures buf[..54] == IdentityBytes(id, t)
  {
    hide MakerBytes, DateBytes, FeatureBytes, ModeBytes;
    WriteMaker(buf, id);
    WriteDate(buf, id);
    WriteFeatures(buf, t);
    WriteModes(buf, t);
  }

  method WriteMaker(buf: array<byte>, id: Identity)
    requires buf.Length == SIZE && GoodIdentity(id)
    modifies buf
    ensures buf[..12] == MakerBytes(id)
  {
    hide ManufacturerBytes;
    forall k | 0 <= k < 8 {
      buf[k] := HEADER[k];
    }
    var m := ManufacturerBytes(id.manufacturer);
    buf[8], buf[9], buf[10], buf[11] := m[0], m[1], id.productCode[0], id.productCode[1];
  }

  method WriteDate(buf: array<byte>, id: Identity)
    requires buf.Length == SIZE
    modifies buf
    ensures buf[..12] == old(buf[..12]) && buf[12..20] == DateBytes(id)
  {
    hide Low;
    forall k | 12 <= k < 16 {
      buf[k] := 0;
    }
    buf[16], buf[17], buf[18], buf[19] := 0, Low(id.year - 1990), 1, 3;
  }

  method WriteFeatures(buf: array<byte>, t: Timing)
    requires buf.Length == SIZE
    modifies buf
    ensures buf[..25] == old(buf[..20]) + FeatureBytes(t)
  {
    hide Low;
    buf[20], buf[21], buf[22] := 0x80, Low(t.hActive / 64), Low(t.vActive / 64);
    buf[23], buf[24] := 0x50, 6;
  }

  method WriteModes(buf: array<byte>, t: Timing)
    requires buf.Length == SIZE
    modifies buf
    ensures buf[..54] == old(buf[..25]) + ModeBytes(t)
  {
    hide Low;
    forall k | 25 <= k < 35 {
      buf[k] := 0;
    }
    buf[35], buf[36], buf[37] := Low(t.established / 256), Low(t.established), 0;
    forall k | 38 <= k < 54 {
      buf[k] := 1;
    }
  }

  method WriteDataBlocks(buf: array<byte>, name: seq<byte>, t: Timing, secondary: Option<Timing>)
    requires buf.Length == SIZE
    modifies buf
    ensures buf[..126] == old(buf[..54]) + DataBlocks(name, t, secondary)
  {
    hide TimingBytes, NameBytes;
    var at := 54;
    WriteTiming(buf, at, t);
    at := at + 18;
    if secondary.Some? {
      WriteTiming(buf, at, secondary.value);
      at := at + 18;
    }
    WriteMonitorName(buf, at, name);
    at := at + 18;
    WriteMonitorRange(buf, at);
    at := at + 18;
    if secondary.None? {
      WriteUnused(buf, at);
    }
  }

  /** The whole block, whatever the buffer held before. */
  method GenerateEdid(buf: array<byte>, id: Identity, name: seq<byte>, t: Timing, secondary: Option<Timing>)
    requires buf.Length == SIZE && GoodIdentity(id)
    modifies buf
    ensures buf[..] == EdidBytes(id, name, t, secondary)
  {
    hide IdentityBytes, DataBlocks, Checksum;
    WriteIdentity(buf, id, t);
    WriteDataBlocks(buf, name, t, secondary);
    buf[126] := 0;
    assert buf[..127] == IdentityBytes(id, t) + DataBlocks(name, t, secondary) + [0];
    buf[127] := ComputeChecksum(buf);
    assert buf[..127] + [buf[127]] == buf[..];
  }
}
