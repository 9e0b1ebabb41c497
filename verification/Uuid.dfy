/** The idempotency keys the SDK makes up: sixteen random bytes, six bits of them fixed to version 4
    and the RFC variant (section 4.4 of RFC 4122), printed as lower-case hexadecimal. */
module Uuid {
  import opened Wrappers

  const VERSION_4: bv8 := 0x40
  const VARIANT_RFC: bv8 := 0x80
  const VERSION_MASK: bv8 := 0x0f
  const VARIANT_MASK: bv8 := 0x3f

  function Versioned(b: bv8): bv8 { (b & VERSION_MASK) | VERSION_4 }

  function Varied(b: bv8): bv8 { (b & VARIANT_MASK) | VARIANT_RFC }

  function Masked(bytes: seq<bv8>): (m: seq<bv8>)
    requires |bytes| == 16
    ensures |m| == 16
  {
    bytes[6 := Versioned(bytes[6])][8 := Varied(bytes[8])]
  }

  // ----- Printing -----

  function HexDigit(n: bv8): char {
    if n == 0 then '0' else if n == 1 then '1' else if n == 2 then '2' else if n == 3 then '3'
    else if n == 4 then '4' else if n == 5 then '5' else if n == 6 then '6' else if n == 7 then '7'
    else if n == 8 then '8' else if n == 9 then '9' else if n == 10 then 'a' else if n == 11 then 'b'
    else if n == 12 then 'c' else if n == 13 then 'd' else if n == 14 then 'e' else 'f'
  }

  function High(b: bv8): bv8 { b >> 4 }

  function Low(b: bv8): bv8 { b & 0x0f }

  function Hex(bytes: seq<bv8>): (s: string)
    ensures |s| == 2 * |bytes|
  {
    if bytes == [] then "" else [HexDigit(High(bytes[0])), HexDigit(Low(bytes[0]))] + Hex(bytes[1..])
  }

  function Print(bytes: seq<bv8>): (s: string)
    requires |bytes| == 16
    ensures |s| == 36
  {
    Hex(bytes[..4]) + "-" + Hex(bytes[4..6]) + "-" + Hex(bytes[6..8]) + "-" + Hex(bytes[8..10]) + "-" + Hex(bytes[10..])
  }

  method Mask(uuid: array<bv8>)
    requires uuid.Length == 16
    modifies uuid
    ensures uuid[..] == Masked(old(uuid[..]))
  {
    uuid[6] := (uuid[6] & VERSION_MASK) | VERSION_4;
    uuid[8] := (uuid[8] & VARIANT_MASK) | VARIANT_RFC;
  }

  /** random is what the system's generator fills the buffer with, or its failure. */
  method NewRequestUUID(random: Result<seq<bv8>, string>) returns (r: Result<string, string>)
    requires random.Ok? ==> |random.value| == 16
    ensures r == if random.Ok? then Ok(Print(Masked(random.value))) else Err(random.error)
  {
    if random.Err? { return Err(random.error); }
    var uuid := new bv8[16](i requires 0 <= i < 16 => random.value[i]);
    assert uuid[..] == random.value;
    Mask(uuid);
    var bytes := uuid[..];
    r := Ok(Print(bytes));
  }

  // ----- Reading back -----

  function DigitOf(c: char): Option<bv8> {
    if c == '0' then Some(0) else if c == '1' then Some(1) else if c == '2' then Some(2)
    else if c == '3' then Some(3) else if c == '4' then Some(4) else if c == '5' then Some(5)
    else if c == '6' then Some(6) else if c == '7' then Some(7) else if c == '8' then Some(8)
    else if c == '9' then Some(9) else if c == 'a' then Some(10) else if c == 'b' then Some(11)
    else if c == 'c' then Some(12) else if c == 'd' then Some(13) else if c == 'e' then Some(14)
    else if c == 'f' then Some(15)
    else None
  }

  function Joined(high: bv8, low: bv8): bv8 { (high << 4) | low }

  function Unhex(s: string): (r: Option<seq<bv8>>)
    ensures r.Some? ==> |s| == 2 * |r.value|
  {
    if s == "" then Some([])
    else if |s| == 1 || DigitOf(s[0]).None? || DigitOf(s[1]).None? || Unhex(s[2..]).None? then None
    else Some([Joined(DigitOf(s[0]).value, DigitOf(s[1]).value)] + Unhex(s[2..]).value)
  }

  /** The digits between the dashes. */
  function Undashed(s: string): string
    requires |s| == 36
  {
    s[..8] + s[9..13] + s[14..18] + s[19..23] + s[24..]
  }

  function Parse(s: string): (r: Option<seq<bv8>>)
    ensures r.Some? ==> |s| == 36 && |r.value| == 16
  {
    if |s| == 36 && s[8] == '-' && s[13] == '-' && s[18] == '-' && s[23] == '-' then Unhex(Undashed(s)) else None
  }

  lemma DigitsRoundTrip(n: bv8, c: char)
    ensures n < 16 ==> DigitOf(HexDigit(n)) == Some(n)
    ensures DigitOf(c).Some? ==> DigitOf(c).value < 16 && HexDigit(DigitOf(c).value) == c
  {
  }

  lemma NibblesRoundTrip(b: bv8, high: bv8, low: bv8)
    ensures High(b) < 16 && Low(b) < 16 && Joined(High(b), Low(b)) == b
    ensures high < 16 && low < 16 ==> High(Joined(high, low)) == high && Low(Joined(high, low)) == low
  {
  }

  lemma {:induction false} UnhexHex(bytes: seq<bv8>)
    ensures Unhex(Hex(bytes)) == Some(bytes)
  {
    if bytes != [] {
      UnhexHex(bytes[1..]);
      var b := bytes[0];
      assert Hex(bytes)[2..] == Hex(bytes[1..]);
      NibblesRoundTrip(b, 0, 0);
      DigitsRoundTrip(High(b), '0');
      DigitsRoundTrip(Low(b), '0');
      hide HexDigit, DigitOf, High, Low, Joined;
      assert [b] + bytes[1..] == bytes;
    }
  }

  lemma {:induction false} HexUnhex(s: string)
    requires Unhex(s).Some?
    ensures Hex(Unhex(s).value) == s
  {
    if s != "" {
      HexUnhex(s[2..]);
      var h, l := DigitOf(s[0]).value, DigitOf(s[1]).value;
      DigitsRoundTrip(0, s[0]);
      DigitsRoundTrip(0, s[1]);
      NibblesRoundTrip(0, h, l);
      hide HexDigit, DigitOf, High, Low, Joined;
      assert [s[0], s[1]] + s[2..] == s;
      assert Unhex(s).value[1..] == Unhex(s[2..]).value;
    }
  }

  lemma {:induction false} HexAppend(a: seq<bv8>, b: seq<bv8>)
    ensures Hex(a + b) == Hex(a) + Hex(b)
  {
    if a == [] {
      assert a + b == b;
    } else {
      assert (a + b)[1..] == a[1..] + b;
      HexAppend(a[1..], b);
      hide HexDigit, High, Low;
    }
  }

  /** Without its dashes the text is the hexadecimal form of all sixteen bytes. */
  lemma UndashedPrint(bytes: seq<bv8>)
    requires |bytes| == 16
    ensures Undashed(Print(bytes)) == Hex(bytes)
  {
    HexAppend(bytes[..4], bytes[4..6]);
    HexAppend(bytes[..6], bytes[6..8]);
    HexAppend(bytes[..8], bytes[8..10]);
    HexAppend(bytes[..10], bytes[10..]);
    assert bytes[..4] + bytes[4..6] == bytes[..6] && bytes[..6] + bytes[6..8] == bytes[..8];
    assert bytes[..8] + bytes[8..10] == bytes[..10] && bytes[..10] + bytes[10..] == bytes;
    Dashes(Hex(bytes[..4]), Hex(bytes[4..6]), Hex(bytes[6..8]), Hex(bytes[8..10]), Hex(bytes[10..]));
    hide Hex, Undashed;
  }

  lemma Dashes(a: string, b: string, c: string, d: string, e: string)
    requires |a| == 8 && |b| == 4 && |c| == 4 && |d| == 4 && |e| == 12
    ensures Undashed(a + "-" + b + "-" + c + "-" + d + "-" + e) == a + b + c + d + e
  {
    var s := a + "-" + b + "-" + c + "-" + d + "-" + e;
    assert s[..8] == a && s[9..13] == b && s[14..18] == c && s[19..23] == d && s[24..] == e;
  }

  /** Parse and Print undo each other: on all sixteen-byte values, and on all texts that parse. */
  lemma ParsePrint(bytes: seq<bv8>)
    requires |bytes| == 16
    ensures Parse(Print(bytes)) == Some(bytes)
  {
    UndashedPrint(bytes);
    UnhexHex(bytes);
    hide Hex, Unhex, Undashed;
  }

  lemma PrintParse(s: string)
    requires Parse(s).Some?
    ensures Print(Parse(s).value) == s
  {
    var bytes := Parse(s).value;
    HexUnhex(Undashed(s));
    UndashedPrint(bytes);
    hide Hex, Unhex;
    SameDigits(Print(bytes), s);
  }

  lemma SameDigits(s: string, t: string)
    requires |s| == |t| == 36 && Undashed(s) == Undashed(t)
    requires forall i <- [8, 13, 18, 23] :: s[i] == t[i]
    ensures s == t
  {
    var u, v := Undashed(s), Undashed(t);
    assert u[..8] == s[..8] && u[8..12] == s[9..13] && u[12..16] == s[14..18];
    assert u[16..20] == s[19..23] && u[20..] == s[24..];
    assert v[..8] == t[..8] && v[8..12] == t[9..13] && v[12..16] == t[14..18];
    assert v[16..20] == t[19..23] && v[20..] == t[24..];
    Rejoined(s);
    Rejoined(t);
  }

  lemma Rejoined(s: string)
    requires |s| == 36
    ensures s == s[..8] + [s[8]] + s[9..13] + [s[13]] + s[14..18] + [s[18]] + s[19..23] + [s[23]] + s[24..]
  {
  }

  // ----- What the keys tell apart -----

  /** The bits that the generator decides. */
  predicate SameEntropy(a: seq<bv8>, b: seq<bv8>)
    requires |a| == |b| == 16
  {
    && (forall i :: 0 <= i < 16 && i != 6 && i != 8 ==> a[i] == b[i])
    && a[6] & 0x0f == b[6] & 0x0f
    && a[8] & 0x3f == b[8] & 0x3f
  }

  lemma FixedBits(a: bv8, b: bv8)
    ensures Versioned(a) == Versioned(b) <==> a & VERSION_MASK == b & VERSION_MASK
    ensures Varied(a) == Varied(b) <==> a & VARIANT_MASK == b & VARIANT_MASK
    ensures Versioned(Versioned(a)) == Versioned(a) && Varied(Varied(a)) == Varied(a)
    ensures High(Versioned(a)) == 4 && 8 <= High(Varied(a)) <= 11
  {
  }

  lemma MaskedIff(a: seq<bv8>, b: seq<bv8>)
    requires |a| == |b| == 16
    ensures Masked(a) == Masked(b) <==> SameEntropy(a, b)
  {
    FixedBits(a[6], b[6]);
    FixedBits(a[8], b[8]);
    hide Masked, Versioned, Varied;
    MaskedAt(a);
    MaskedAt(b);
  }

  lemma MaskedAt(a: seq<bv8>)
    requires |a| == 16
    ensures Masked(a)[6] == Versioned(a[6]) && Masked(a)[8] == Varied(a[8])
    ensures forall i :: 0 <= i < 16 && i != 6 && i != 8 ==> Masked(a)[i] == a[i]
  {
    hide Versioned, Varied;
  }

  /** Two keys are alike exactly when the random bytes agree outside the six fixed bits. */
  lemma KeysAlike(a: seq<bv8>, b: seq<bv8>)
    requires |a| == |b| == 16
    ensures Print(Masked(a)) == Print(Masked(b)) <==> SameEntropy(a, b)
  {
    hide Print, Masked, Parse, SameEntropy;
    ParsePrint(Masked(a));
    ParsePrint(Masked(b));
    MaskedIff(a, b);
  }

  /** The version digit and the variant digit stand where the RFC puts them. */
  lemma VersionAndVariant(bytes: seq<bv8>)
    requires |bytes| == 16
    ensures var s := Print(Masked(bytes));
            s[14] == '4' && (s[19] == '8' || s[19] == '9' || s[19] == 'a' || s[19] == 'b')
  {
    var m := Masked(bytes);
    FixedBits(bytes[6], bytes[6]);
    FixedBits(bytes[8], bytes[8]);
    FirstDigit(m[6..8]);
    FirstDigit(m[8..10]);
    assert m[6..8][0] == Versioned(bytes[6]) && m[8..10][0] == Varied(bytes[8]);
    var s := Print(m);
    assert s[14] == Hex(m[6..8])[0] && s[19] == Hex(m[8..10])[0];
    hide Hex, Print, Masked, Versioned, Varied, High;
  }

  lemma FirstDigit(bytes: seq<bv8>)
    requires bytes != []
    ensures Hex(bytes)[0] == HexDigit(High(bytes[0]))
  {
  }

  /** The keys are exactly the texts of the sixteen-byte values that have the six bits. */
  lemma KeysAre(s: string)
    ensures (exists bytes: seq<bv8> :: |bytes| == 16 && s == Print(Masked(bytes)))
       <==> Parse(s).Some? && Masked(Parse(s).value) == Parse(s).value
  {
    hide Print, Masked, Parse;
    if bytes: seq<bv8> :| |bytes| == 16 && s == Print(Masked(bytes)) {
      ParsePrint(Masked(bytes));
      MaskedTwice(bytes);
    }
    if Parse(s).Some? { PrintParse(s); }
  }

  lemma MaskedTwice(bytes: seq<bv8>)
    requires |bytes| == 16
    ensures Masked(Masked(bytes)) == Masked(bytes)
  {
    FixedBits(bytes[6], 0);
    FixedBits(bytes[8], 0);
    hide Versioned, Varied;
  }

  // ----- The text, digit by digit -----

  /** Where the first digit of byte i stands: two digits a byte, and four dashes on the way. */
  function At(i: nat): nat {
    2 * i + if i < 4 then 0 else if i < 6 then 1 else if i < 8 then 2 else if i < 10 then 3 else 4
  }

  lemma DigitIs(n: bv8)
    requires n < 16
    ensures HexDigit(n) == "0123456789abcdef"[n as int]
  {
  }

  lemma {:induction false} HexAt(bytes: seq<bv8>, i: nat)
    requires i < |bytes|
    ensures Hex(bytes)[2 * i] == HexDigit(High(bytes[i])) && Hex(bytes)[2 * i + 1] == HexDigit(Low(bytes[i]))
  {
    hide HexDigit, High, Low;
    if i > 0 { HexAt(bytes[1..], i - 1); }
  }

  lemma PrintAt(bytes: seq<bv8>, i: nat)
    requires |bytes| == 16 && i < 16
    ensures var s := Print(bytes);
            && s[8] == s[13] == s[18] == s[23] == '-'
            && s[At(i)] == HexDigit(High(bytes[i])) && s[At(i) + 1] == HexDigit(Low(bytes[i]))
  {
    UndashedPrint(bytes);
    HexAt(bytes, i);
    hide Hex, HexDigit, High, Low;
    var s := Print(bytes);
    UndashedAt(s, i);
  }

  lemma UndashedAt(s: string, i: nat)
    requires |s| == 36 && i < 16
    ensures |Undashed(s)| == 32
    ensures s[At(i)] == Undashed(s)[2 * i] && s[At(i) + 1] == Undashed(s)[2 * i + 1]
  {
  }

  /** Byte i stands in the text as its two lower-case hexadecimal digits, the high one first; the dashes
      stand after bytes 3, 5, 7 and 9. */
  lemma TextIs(bytes: seq<bv8>, i: nat)
    requires |bytes| == 16 && i < 16
    ensures var s := Print(bytes);
            && s[8] == s[13] == s[18] == s[23] == '-'
            && (bytes[i] >> 4) < 16 && (bytes[i] & 0x0f) < 16
            && s[At(i)] == "0123456789abcdef"[(bytes[i] >> 4) as int]
            && s[At(i) + 1] == "0123456789abcdef"[(bytes[i] & 0x0f) as int]
  {
    NibblesRoundTrip(bytes[i], 0, 0);
    PrintAt(bytes, i);
    DigitIs(High(bytes[i]));
    DigitIs(Low(bytes[i]));
    hide Print, HexDigit;
  }
}
