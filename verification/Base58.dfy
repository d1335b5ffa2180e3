/** The Base58 and Base58Check codecs over hex text, and the `Base58` object that reads and prints keys. */
module Base58 {
  import opened Wrappers
  import opened Hex
  import opened Numerals

  const ALPHABET :=
    "123456789" + "ABCDEFGH" + "JKLMN" + "PQRSTUVWXYZ" + "abcdefghijk" + "mnopqrstuvwxyz"

  /** Position of a character in the alphabet, -1 when it is not there. */
  function Find(c: char): (d: int)
    ensures -1 <= d < 58
  {
    if '1' <= c <= '9' then c as int - '1' as int
    else if 'A' <= c <= 'H' then c as int - 'A' as int + 9
    else if 'J' <= c <= 'N' then c as int - 'J' as int + 17
    else if 'P' <= c <= 'Z' then c as int - 'P' as int + 22
    else if 'a' <= c <= 'k' then c as int - 'a' as int + 33
    else if 'm' <= c <= 'z' then c as int - 'm' as int + 44
    else -1
  }

  function Letter(d: nat): char
    requires d < 58
  {
    if d < 9 then ('1' as int + d) as char
    else if d < 17 then ('A' as int + d - 9) as char
    else if d < 22 then ('J' as int + d - 17) as char
    else if d < 33 then ('P' as int + d - 22) as char
    else if d < 44 then ('a' as int + d - 33) as char
    else ('m' as int + d - 44) as char
  }

  lemma AlphabetIsLetters(d: nat)
    requires d < 58
    ensures |ALPHABET| == 58 && ALPHABET[d] == Letter(d) && Find(Letter(d)) == d
  { }

  lemma LetterOfFind(c: char)
    requires Find(c) >= 0
    ensures Letter(Find(c)) == c
  { }

  predicate IsAscii(s: string) {
    forall i :: 0 <= i < |s| ==> s[i] as int < 128
  }

  ghost predicate IsBase58Text(s: string) {
    forall i :: 0 <= i < |s| ==> Find(s[i]) >= 0
  }

  function Digits(s: string): seq<int> {
    seq(|s|, i requires 0 <= i < |s| => Find(s[i]))
  }

  function Letters(ds: seq<nat>): string
    requires IsNumeral(ds, 58)
  {
    seq(|ds|, i requires 0 <= i < |ds| => Letter(ds[i]))
  }

  // ---------------------------------------------------------------- specification of the codec

  function EncodeBytes(bs: seq<Byte>): string {
    ValueNonNegative(bs, 256);
    Letters(Recode(bs, 256, 58))
  }

  /** None: the text is not ASCII, or its value is negative and does not fit a byte. */
  function DecodeText(s: string): Option<seq<Byte>> {
    if !IsAscii(s) || Value(Digits(s), 58) < 0 then None
    else Some(Recode(Digits(s), 58, 256))
  }

  function Encode(hex: string): Option<string> {
    match Unhexlify(hex)
    case None => None
    case Some(bs) => Some(EncodeBytes(bs))
  }

  function Decode(s: string): Option<string> {
    match DecodeText(s)
    case None => None
    case Some(bs) => Some(Hexlify(bs))
  }

  // ---------------------------------------------------------------- the two loops

  /** One round of the counting loops: the value and the leading zeros of one more digit. */
  lemma CountStep(ds: seq<int>, i: nat, b: nat)
    requires 2 <= b && i < |ds|
    requires forall j :: 0 <= j < |ds| ==> -1 <= ds[j] < b
    ensures var n := Value(ds[..i], b) * b + ds[i];
            && Value(ds[..i + 1], b) == n
            && LeadingZeros(ds[..i + 1]) == LeadingZeros(ds[..i]) + if n == 0 then 1 else 0
  {
    assert ds[..i + 1][..i] == ds[..i];
    LeadingZerosOfPrefix(ds[..i + 1]);
    SignOfValue(ds[..i + 1], b);
    SignOfValue(ds[..i], b);
  }

  method Base58Encode(hexstring: string) returns (text: Option<string>)
    ensures text == Encode(hexstring)
  {
    var byteseq := Unhexlify(hexstring);
    if byteseq.None? { return None; }
    var bs := byteseq.value;
    var n: int, leadingZeroes: nat := 0, 0;
    for i := 0 to |bs|
      invariant n == Value(bs[..i], 256)
      invariant leadingZeroes == LeadingZeros(bs[..i])
    {
      CountStep(bs, i, 256);
      n := n * 256 + bs[i];
      if n == 0 { leadingZeroes := leadingZeroes + 1; }
    }
    assert bs[..|bs|] == bs;
    ValueNonNegative(bs, 256);
    ghost var whole := n;
    var res := "";
    while n >= 58
      invariant 0 <= n
      invariant Letters(Expand(whole, 58)) == Letters(Expand(n, 58)) + res
    {
      LastLetter(n, res);
      res := [Letter(n % 58)] + res;
      n := n / 58;
    }
    assert Letters(Expand(n, 58)) == [Letter(n)];
    res := [Letter(n)] + res;
    LettersOfAppend(Zeros(leadingZeroes), Expand(whole, 58));
    var ones := seq(leadingZeroes, _ => Letter(0));
    assert ones == Letters(Zeros(leadingZeroes));
    return Some(ones + res);
  }

  lemma LastLetter(n: nat, res: string)
    requires n >= 58
    ensures Letters(Expand(n, 58)) + res == Letters(Expand(n / 58, 58)) + ([Letter(n % 58)] + res)
  {
    LettersOfAppend(Expand(n / 58, 58), [n % 58]);
    assert Letters([n % 58]) == [Letter(n % 58)];
  }

  lemma LettersOfAppend(a: seq<nat>, b: seq<nat>)
    requires IsNumeral(a, 58) && IsNumeral(b, 58)
    ensures Letters(a + b) == Letters(a) + Letters(b)
  { }

  method Base58Decode(text: string) returns (hexstring: Option<string>)
    ensures hexstring == Decode(text)
  {
    if !IsAscii(text) { return None; }
    var n: int, leadingZeroes: nat := 0, 0;
    ghost var ds := Digits(text);
    for i := 0 to |text|
      invariant n == Value(ds[..i], 58)
      invariant leadingZeroes == LeadingZeros(ds[..i])
    {
      CountStep(ds, i, 58);
      n := n * 58 + Find(text[i]);
      if n == 0 { leadingZeroes := leadingZeroes + 1; }
    }
    assert ds[..|ds|] == ds;
    if n < 0 { return None; }
    ghost var whole := n;
    var res: seq<Byte> := [];
    while n >= 256
      invariant 0 <= n
      invariant Expand(whole, 256) == Expand(n, 256) + res
    {
      res := [n % 256] + res;
      n := n / 256;
    }
    res := [n] + res;
    var zeros: seq<Byte> := seq(leadingZeroes, _ => 0);
    return Some(Hexlify(zeros + res));
  }

  // ---------------------------------------------------------------- the codec is a bijection

  lemma DigitsOfLetters(ds: seq<nat>)
    requires IsNumeral(ds, 58)
    ensures Digits(Letters(ds)) == ds && IsAscii(Letters(ds)) && IsBase58Text(Letters(ds))
  {
    forall i | 0 <= i < |ds| ensures Find(Letter(ds[i])) == ds[i] && Letter(ds[i]) as int < 128 {
      AlphabetIsLetters(ds[i]);
    }
  }

  lemma LettersOfDigits(s: string)
    requires IsBase58Text(s)
    ensures IsNumeral(Digits(s), 58) && IsAscii(s) && Letters(Digits(s)) == s
  {
    forall i | 0 <= i < |s| ensures Letter(Find(s[i])) == s[i] && s[i] as int < 128 { LetterOfFind(s[i]); }
  }

  lemma DecodeLetters(ds: seq<nat>)
    requires IsNumeral(ds, 58)
    ensures 0 <= Value(ds, 58) && DecodeText(Letters(ds)) == Some(Recode(ds, 58, 256))
  {
    DigitsOfLetters(ds);
    ValueNonNegative(ds, 58);
  }

  /** Bytes survive encoding and decoding exactly when one of them is nonzero. */
  lemma DecodeInvertsEncode(bs: seq<Byte>)
    ensures DecodeText(EncodeBytes(bs)).Some?
    ensures DecodeText(EncodeBytes(bs)) == Some(bs) <==> HasNonzero(bs)
    ensures !HasNonzero(bs) ==> DecodeText(EncodeBytes(bs)) == Some(Zeros(|bs| + 2))
  {
    ValueNonNegative(bs, 256);
    var ds := Recode(bs, 256, 58);
    DecodeLetters(ds);
    if HasNonzero(bs) {
      RecodeInverts(bs, 256, 58);
    } else {
      ZeroBytesGrow(bs);
      assert |Zeros(|bs| + 2)| != |bs|;
    }
  }

  lemma ZeroBytesGrow(bs: seq<Byte>)
    requires !HasNonzero(bs)
    ensures Value(bs, 256) == 0 && Value(Recode(bs, 256, 58), 58) == 0
    ensures Recode(Recode(bs, 256, 58), 58, 256) == Zeros(|bs| + 2)
  {
    AllZero(bs);
    RecodeOfZeros(|bs|, 256, 58);
    RecodeOfZeros(|bs| + 1, 58, 256);
  }

  lemma UnknownIsNegative(c: char)
    ensures Find(c) < 0 <==> c !in ALPHABET
  {
    if Find(c) >= 0 {
      AlphabetIsLetters(Find(c));
      LetterOfFind(c);
      assert ALPHABET[Find(c)] == c;
    }
    if c in ALPHABET {
      var k :| 0 <= k < |ALPHABET| && ALPHABET[k] == c;
      AlphabetIsLetters(k);
    }
  }

  /** Decoding raises exactly when the first character other than `1` is not in the alphabet, or when some
      character is not ASCII. */
  lemma DecodeFails(s: string)
    ensures var z := LeadingZeros(Digits(s));
            DecodeText(s).None? <==>
            (exists i :: 0 <= i < |s| && s[i] as int >= 128) || (z < |s| && s[z] !in ALPHABET)
    ensures forall i :: 0 <= i < LeadingZeros(Digits(s)) ==> s[i] == '1'
  {
    var ds := Digits(s);
    var z := LeadingZeros(ds);
    SignOfValue(ds, 58);
    if z < |s| { UnknownIsNegative(s[z]); }
    forall i | 0 <= i < z ensures s[i] == '1' { assert ds[i] == 0; LetterOfFind(s[i]); }
  }

  /** Text that decodes survives decoding and encoding exactly when all its characters are known and
      one of them is not `1`. */
  lemma EncodeInvertsDecode(s: string)
    requires DecodeText(s).Some?
    ensures EncodeBytes(DecodeText(s).value) == s
            <==> IsBase58Text(s) && exists i :: 0 <= i < |s| && s[i] != '1'
  {
    EncodedIsText(DecodeText(s).value);
    if IsBase58Text(s) {
      if exists i :: 0 <= i < |s| && s[i] != '1' {
        TextSurvives(s);
      } else {
        OnesGrow(s);
      }
    }
  }

  lemma EncodedIsText(bs: seq<Byte>)
    ensures IsBase58Text(EncodeBytes(bs))
  {
    ValueNonNegative(bs, 256);
    DigitsOfLetters(Recode(bs, 256, 58));
  }

  lemma TextSurvives(s: string)
    requires DecodeText(s).Some? && IsBase58Text(s) && exists i :: 0 <= i < |s| && s[i] != '1'
    ensures EncodeBytes(DecodeText(s).value) == s
  {
    var i :| 0 <= i < |s| && s[i] != '1';
    LettersOfDigits(s);
    LetterOfFind(s[i]);
    assert Digits(s)[i] != 0;
    RecodeInverts(Digits(s), 58, 256);
  }

  lemma OnesGrow(s: string)
    requires forall i :: 0 <= i < |s| ==> s[i] == '1'
    ensures DecodeText(s).Some? && |EncodeBytes(DecodeText(s).value)| == |s| + 2
  {
    AllZero(Digits(s));
    RecodeOfZeros(|s|, 58, 256);
    RecodeOfZeros(|s| + 1, 256, 58);
  }

  // ---------------------------------------------------------------- length of the encoding

  /** ⌈7m/5⌉ */
  function SevenFifths(m: nat): nat {
    (7 * m + 4) / 5
  }

  lemma {:induction false} BytesFitLetters(m: nat)
    ensures Pow(256, m) <= Pow(58, SevenFifths(m))
  {
    SmallPowers();
    if m >= 5 {
      BytesFitLetters(m - 5);
      PowAdd(256, 5, m - 5);
      assert SevenFifths(m) == 7 + SevenFifths(m - 5);
      PowAdd(58, 7, SevenFifths(m - 5));
      ProductMonotone(Pow(256, 5), Pow(58, 7), Pow(256, m - 5), Pow(58, SevenFifths(m - 5)));
    } else {
      assert SevenFifths(0) == 0 && SevenFifths(1) == 2 && SevenFifths(2) == 3
          && SevenFifths(3) == 5 && SevenFifths(4) == 6;
    }
  }

  lemma ProductMonotone(a: nat, b: nat, c: nat, d: nat)
    requires a <= b && c <= d
    ensures a * c <= b * d
  {
    MulMonotone(a, b, c);
    MulMonotone(c, d, b);
  }

  lemma SmallPowers()
    ensures Pow(256, 0) == Pow(58, 0)
    ensures Pow(256, 1) <= Pow(58, 2) && Pow(256, 2) <= Pow(58, 3) && Pow(256, 3) <= Pow(58, 5)
    ensures Pow(256, 4) <= Pow(58, 6) && Pow(256, 5) < Pow(58, 7)
  { }

  /** With z leading zero bytes and m further bytes, the text has between z + m and z + ⌈7m/5⌉ letters. */
  lemma EncodedLength(bs: seq<Byte>)
    requires HasNonzero(bs)
    ensures var z := LeadingZeros(bs);
            |bs| <= |EncodeBytes(bs)| <= z + SevenFifths(|bs| - z)
  {
    var z := LeadingZeros(bs);
    var core := SplitZeros(bs);
    var m := |core|;
    assert IsNumeral(core, 256) by {
      forall i | 0 <= i < m ensures 0 <= core[i] < 256 { assert core[i] == bs[z + i]; }
    }
    ValueBounds(core, 256);
    ValueSkipsZeros(z, core, 256);
    var v := Value(bs, 256);
    BytesFitLetters(m);
    NumeralLength(v, 58, SevenFifths(m));
    if m > 1 {
      PowMonotone(58, 256, m - 1);
      NumeralLength(v, 58, m - 1);
    }
  }

  // ---------------------------------------------------------------- Base58Check

  /** The first four bytes of a digest. */
  type Sum4 = s: seq<Byte> | |s| == 4 witness [0, 0, 0, 0]

  /** The two digests, as arbitrary functions. */
  datatype Hashes = Hashes(doubleSha256: seq<Byte> -> Sum4, ripemd160: seq<Byte> -> Sum4)

  function CheckEncode(h: Hashes, version: Byte, payload: string): Option<string> {
    var s := Hexlify([version]) + payload;
    match Unhexlify(s)
    case None => None
    case Some(bs) => Encode(s + Hexlify(h.doubleSha256(bs)))
  }

  function CheckDecode(h: Hashes, s: string): Option<string> {
    match DecodeText(s)
    case None => None
    case Some(bs) =>
      var body := bs[..if |bs| < 4 then 0 else |bs| - 4];
      var dec := Hexlify(body);
      if bs[if |bs| < 4 then 0 else |bs| - 4..] == h.doubleSha256(body)
      then Some(dec[if |dec| < 2 then |dec| else 2..]) else None
  }

  function BtsCheckEncode(h: Hashes, payload: string): Option<string> {
    match Unhexlify(payload)
    case None => None
    case Some(bs) => Encode(payload + Hexlify(h.ripemd160(bs)))
  }

  function BtsCheckDecode(h: Hashes, s: string): Option<string> {
    match DecodeText(s)
    case None => None
    case Some(bs) =>
      var body := bs[..if |bs| < 4 then 0 else |bs| - 4];
      if bs[if |bs| < 4 then 0 else |bs| - 4..] == h.ripemd160(body)
      then Some(Hexlify(body)) else None
  }

  /** What the encoders put through Base58: version byte if any, payload, check sum. */
  lemma BtsCheckedBytes(h: Hashes, payload: string)
    requires Unhexlify(payload).Some?
    ensures var p := Unhexlify(payload).value;
            BtsCheckEncode(h, payload) == Some(EncodeBytes(p + h.ripemd160(p)))
  {
    var p := Unhexlify(payload).value;
    HexInverts(h.ripemd160(p));
    Readable(payload);
    UnhexlifyAppend(payload, Hexlify(h.ripemd160(p)));
  }

  lemma CheckedBytes(h: Hashes, version: Byte, payload: string)
    requires Unhexlify(payload).Some?
    ensures var body := [version] + Unhexlify(payload).value;
            CheckEncode(h, version, payload) == Some(EncodeBytes(body + h.doubleSha256(body)))
  {
    var s := Hexlify([version]) + payload;
    HexInverts([version]);
    UnhexlifyAppend(Hexlify([version]), payload);
    var sum := h.doubleSha256(Unhexlify(s).value);
    HexInverts(sum);
    Readable(s);
    UnhexlifyAppend(s, Hexlify(sum));
  }

  /** What the decoders make of body and check sum. */
  lemma SplitSum(body: seq<Byte>, sum: Sum4)
    ensures var bs := body + sum;
            bs[..|bs| - 4] == body && bs[|bs| - 4..] == sum
  { }

  lemma CheckDecodeBytes(h: Hashes, s: string, version: Byte, p: seq<Byte>)
    requires DecodeText(s) == Some([version] + p + h.doubleSha256([version] + p))
    ensures CheckDecode(h, s) == Some(Hexlify(p))
  {
    SplitSum([version] + p, h.doubleSha256([version] + p));
    HexlifyAppend([version], p);
    assert |Hexlify([version])| == 2;
  }

  /** A text that decodes to a body and its own check sum. */
  ghost predicate Checked(digest: seq<Byte> -> Sum4, s: string, body: seq<Byte>) {
    DecodeText(s) == Some(body + digest(body))
  }

  lemma CheckedIsSplit(digest: seq<Byte> -> Sum4, s: string, body: seq<Byte>)
    ensures Checked(digest, s, body) <==>
            DecodeText(s).Some? &&
            var bs := DecodeText(s).value;
            && |bs| >= 4 && body == bs[..|bs| - 4] && bs[|bs| - 4..] == digest(body)
  {
    SplitSum(body, digest(body));
    if DecodeText(s).Some? && |DecodeText(s).value| >= 4 {
      var bs := DecodeText(s).value;
      assert bs == bs[..|bs| - 4] + bs[|bs| - 4..];
    }
  }

  /** The version codec accepts exactly the texts that decode to some body and its digest, and gives the
      hex text of the body without the version byte. */
  lemma CheckDecodeAccepts(h: Hashes, s: string)
    ensures CheckDecode(h, s).Some? <==> exists body :: Checked(h.doubleSha256, s, body)
    ensures forall body :: Checked(h.doubleSha256, s, body) ==>
              CheckDecode(h, s) == Some(Hexlify(if body == [] then [] else body[1..]))
  {
    forall body ensures Checked(h.doubleSha256, s, body) ==>
                          CheckDecode(h, s) == Some(Hexlify(if body == [] then [] else body[1..]))
    {
      CheckedIsSplit(h.doubleSha256, s, body);
    }
    if CheckDecode(h, s).Some? {
      var bs := DecodeText(s).value;
      CheckedIsSplit(h.doubleSha256, s, bs[..if |bs| < 4 then 0 else |bs| - 4]);
    }
  }

  /** So does the codec without a version byte. */
  lemma BtsCheckDecodeAccepts(h: Hashes, s: string)
    ensures BtsCheckDecode(h, s).Some? <==> exists body :: Checked(h.ripemd160, s, body)
    ensures forall body :: Checked(h.ripemd160, s, body) ==> BtsCheckDecode(h, s) == Some(Hexlify(body))
  {
    forall body ensures Checked(h.ripemd160, s, body) ==> BtsCheckDecode(h, s) == Some(Hexlify(body)) {
      CheckedIsSplit(h.ripemd160, s, body);
    }
    if BtsCheckDecode(h, s).Some? {
      var bs := DecodeText(s).value;
      CheckedIsSplit(h.ripemd160, s, bs[..if |bs| < 4 then 0 else |bs| - 4]);
    }
  }

  /** The length of what is decoded tells how many bytes there were. */
  lemma CheckDecodeLength(h: Hashes, s: string, n: nat)
    requires DecodeText(s).Some? && |DecodeText(s).value| == n + 5 && CheckDecode(h, s).Some?
    ensures |CheckDecode(h, s).value| == 2 * n
  {
    var bs := DecodeText(s).value;
    assert |Hexlify(bs[..n + 1])| == 2 * n + 2;
  }

  lemma CheckDecodeOfBytes(h: Hashes, version: Byte, p: seq<Byte>)
    ensures var sum := h.doubleSha256([version] + p);
            CheckDecode(h, EncodeBytes([version] + p + sum)) == Some(Hexlify(p))
            <==> version != 0 || HasNonzero(p) || HasNonzero(sum)
  {
    var bs := [version] + p + h.doubleSha256([version] + p);
    var s := EncodeBytes(bs);
    DecodeInvertsEncode(bs);
    NonzeroOfBody(version, p, h.doubleSha256([version] + p));
    if HasNonzero(bs) {
      CheckDecodeBytes(h, s, version, p);
    } else if CheckDecode(h, s).Some? {
      CheckDecodeLength(h, s, |p| + 2);
      assert |Hexlify(p)| != 2 * (|p| + 2);
    }
  }

  /** The version codec gives the payload back exactly when version, payload and check sum are not
      all zero. */
  lemma CheckDecodeInverts(h: Hashes, version: Byte, payload: string)
    requires Unhexlify(payload).Some?
    ensures CheckEncode(h, version, payload).Some?
    ensures var p := Unhexlify(payload).value;
            CheckDecode(h, CheckEncode(h, version, payload).value) == Some(LowerHex(payload))
            <==> version != 0 || HasNonzero(p) || HasNonzero(h.doubleSha256([version] + p))
  {
    var p := Unhexlify(payload).value;
    CheckedBytes(h, version, payload);
    UnhexInverts(payload);
    CheckDecodeOfBytes(h, version, p);
  }

  lemma NonzeroOfBody(version: Byte, p: seq<Byte>, sum: Sum4)
    ensures HasNonzero([version] + p + sum) <==> version != 0 || HasNonzero(p) || HasNonzero(sum)
  {
    NonzeroOfAppend([version], p);
    NonzeroOfAppend([version] + p, sum);
    assert HasNonzero([version]) <==> version != 0 by { assert [version][0] == version; }
  }

  lemma BtsCheckDecodeBytes(h: Hashes, s: string, p: seq<Byte>)
    requires DecodeText(s) == Some(p + h.ripemd160(p))
    ensures BtsCheckDecode(h, s) == Some(Hexlify(p))
  {
    SplitSum(p, h.ripemd160(p));
  }

  /** Likewise for the codec without a version byte. */
  lemma BtsCheckDecodeInverts(h: Hashes, payload: string)
    requires Unhexlify(payload).Some?
    ensures BtsCheckEncode(h, payload).Some?
    ensures var p := Unhexlify(payload).value;
            BtsCheckDecode(h, BtsCheckEncode(h, payload).value) == Some(LowerHex(payload))
            <==> HasNonzero(p) || HasNonzero(h.ripemd160(p))
  {
    var p := Unhexlify(payload).value;
    var bs := p + h.ripemd160(p);
    BtsCheckedBytes(h, payload);
    var s := EncodeBytes(bs);
    DecodeInvertsEncode(bs);
    UnhexInverts(payload);
    NonzeroOfAppend(p, h.ripemd160(p));
    if HasNonzero(bs) {
      BtsCheckDecodeBytes(h, s, p);
    } else if BtsCheckDecode(h, s).Some? {
      assert |BtsCheckDecode(h, s).value| == 2 * (|p| + 2);
    }
  }

  lemma NonzeroOfAppend(a: seq<int>, b: seq<int>)
    ensures HasNonzero(a + b) <==> HasNonzero(a) || HasNonzero(b)
  {
    if HasNonzero(a) {
      var i :| 0 <= i < |a| && a[i] != 0;
      assert (a + b)[i] != 0;
    }
    if HasNonzero(b) {
      var i :| 0 <= i < |b| && b[i] != 0;
      assert (a + b)[|a| + i] != 0;
    }
  }
}
