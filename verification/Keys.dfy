/** The `Base58` object: reading keys by their shape, printing them per chain, and the shape of WIF keys. */
module Keys {
  import opened Wrappers
  import opened Hex
  import opened Numerals
  import opened Base58

  datatype Key = Key(hex: string, prefix: string)

  /** The constructor. None stands for any of its exceptions. */
  function Parse(h: Hashes, data: string, prefix: string): Option<Key> {
    var hex :=
      if IsHexText(data) then Some(data)
      else if data[0] == '5' || data[0] == '6' then CheckDecode(h, data)
      else if prefix <= data then BtsCheckDecode(h, data[|prefix|..])
      else None;
    match hex
    case None => None
    case Some(x) => Some(Key(x, prefix))
  }

  function Lower(s: string): string {
    seq(|s|, i requires 0 <= i < |s| => if 'A' <= s[i] <= 'Z' then (s[i] as int + 32) as char else s[i])
  }

  function Upper(s: string): string {
    seq(|s|, i requires 0 <= i < |s| => if 'a' <= s[i] <= 'z' then (s[i] as int - 32) as char else s[i])
  }

  /** What `__format__` puts before the encoded key for every format that is not wif, encwif or btc.
      An unknown format is its own prefix. */
  function ChainPrefix(fmt: string): string {
    var f := Lower(fmt);
    if f == "bts-testnet" then "TEST"
    else if f == "steem" then "STM"
    else if f == "ppy-testnet" then "PPYTEST"
    else Upper(fmt)
  }

  function Format(h: Hashes, key: Key, fmt: string): Option<string> {
    var f := Lower(fmt);
    if f == "wif" then CheckEncode(h, 0x80, key.hex)
    else if f == "encwif" then Encode(key.hex)
    else if f == "btc" then CheckEncode(h, 0x00, key.hex)
    else match BtsCheckEncode(h, key.hex)
      case None => None
      case Some(text) => Some(ChainPrefix(fmt) + text)
  }

  // ---------------------------------------------------------------- the shape of a WIF key

  lemma PowerOf58()
    ensures Pow(58, 49) == 255841907598522327585920629514541067041053754668311321718533948148270808097478334742528
    ensures Pow(58, 50) == 14838830640714294999983396511843381888381117770762056659674968992599706869653743415066624
  {
    assert Pow(58, 5) == 656356768;
    PowAdd(58, 5, 5);
    PowAdd(58, 10, 10);
    PowAdd(58, 20, 20);
    PowAdd(58, 4, 5);
    PowAdd(58, 40, 9);
    PowAdd(58, 49, 1);
  }

  lemma PowerOf256()
    ensures Pow(256, 36) == 497323236409786642155382248146820840100456150797347717440463976893159497012533375533056
  {
    assert Pow(256, 4) == 4294967296;
    PowAdd(256, 4, 4);
    PowAdd(256, 8, 8);
    PowAdd(256, 16, 16);
    PowAdd(256, 32, 4);
  }

  /** A number of 37 bytes that leads with 0x80 has 51 letters, and leads with digit 4 and then 16, 17 or
      18. */
  lemma WifBounds(n: nat)
    requires |Expand(n, 256)| == 37 && Expand(n, 256)[0] == 0x80
    ensures |Expand(n, 58)| == 51 && Expand(n, 58)[0] == 4 && 16 <= Expand(n, 58)[1] <= 18
  {
    LeadingDigit(n, 256, 0x80, 36);
    PowerOf58();
    PowerOf256();
    var p, v := Pow(58, 49), n / Pow(58, 49);
    Quotient(n, p);
    assert 248 <= v <= 250 by { Between(n, p, v); }
    LeadingDigits(n, 58, v, 49);
    assert Expand(v, 58) == [4, v - 232];
  }

  lemma Quotient(n: nat, p: nat)
    requires p > 0
    ensures (n / p) * p <= n < (n / p + 1) * p
  { }

  lemma Between(n: nat, p: nat, v: nat)
    requires 248 * p <= n < 251 * p && v * p <= n < (v + 1) * p
    ensures 248 <= v <= 250
  {
    if v < 248 { MulMonotone(v + 1, 248, p); }
    if v > 250 { MulMonotone(251, v, p); }
  }

  /** Whatever the digest and whatever the 32-byte key, the WIF form has 51 Base58 letters and starts
      with a `5` and then `H`, `J` or `K`, which are no hex digits. */
  lemma WifShape(h: Hashes, hex: string)
    requires Unhexlify(hex).Some? && |Unhexlify(hex).value| == 32
    ensures CheckEncode(h, 0x80, hex).Some?
    ensures var w := CheckEncode(h, 0x80, hex).value;
            |w| == 51 && w[0] == '5' && w[1] in {'H', 'J', 'K'} && IsBase58Text(w) && !IsHexText(w)
  {
    var body := [0x80] + Unhexlify(hex).value;
    var bs := body + h.doubleSha256(body);
    CheckedBytes(h, 0x80, hex);
    ExpandOfValue(bs, 256);
    var ds := Expand(Value(bs, 256), 58);
    WifBounds(Value(bs, 256));
    assert Zeros(0) + ds == ds;
    DigitsOfLetters(ds);
    WifLetters(ds);
  }

  lemma WifLetters(ds: seq<nat>)
    requires IsNumeral(ds, 58) && |ds| > 1 && ds[0] == 4 && 16 <= ds[1] <= 18
    ensures var w := Letters(ds); w[0] == '5' && w[1] in {'H', 'J', 'K'} && !IsHexText(w)
  {
    assert HexValue(Letters(ds)[1]) == -1;
  }

  // ---------------------------------------------------------------- printing and reading back

  /** A printed WIF key is read back to the same key, in lower case, whatever the digest. */
  lemma WifRoundTrip(h: Hashes, hex: string, prefix: string)
    requires Unhexlify(hex).Some? && |Unhexlify(hex).value| == 32
    ensures Format(h, Key(hex, prefix), "wif").Some?
    ensures Parse(h, Format(h, Key(hex, prefix), "wif").value, prefix) == Some(Key(LowerHex(hex), prefix))
  {
    assert Lower("wif") == "wif";
    WifShape(h, hex);
    CheckDecodeInverts(h, 0x80, hex);
  }

  /** A key printed with a chain prefix and read with that prefix is recovered, provided payload and
      check sum are not all zero and the prefix itself cannot be taken for hex or for WIF. */
  lemma PrefixRoundTrip(h: Hashes, hex: string, fmt: string, other: string)
    requires Lower(fmt) != "wif" && Lower(fmt) != "encwif" && Lower(fmt) != "btc"
    requires !IsHexText(ChainPrefix(fmt)) && ChainPrefix(fmt)[0] != '5' && ChainPrefix(fmt)[0] != '6'
    requires Unhexlify(hex).Some?
    requires HasNonzero(Unhexlify(hex).value) || HasNonzero(h.ripemd160(Unhexlify(hex).value))
    ensures var text := Format(h, Key(hex, other), fmt);
            text.Some? && Parse(h, text.value, ChainPrefix(fmt)) == Some(Key(LowerHex(hex), ChainPrefix(fmt)))
  {
    BtsCheckDecodeInverts(h, hex);
    ParsesByPrefix(h, ChainPrefix(fmt), BtsCheckEncode(h, hex).value);
  }

  lemma ParsesByPrefix(h: Hashes, p: string, code: string)
    requires !IsHexText(p) && p[0] != '5' && p[0] != '6' && BtsCheckDecode(h, code).Some?
    ensures Parse(h, p + code, p) == Some(Key(BtsCheckDecode(h, code).value, p))
  {
    var text := p + code;
    HexTextAppend(p, code);
    assert text[|p|..] == code;
  }

  const CHAINS := ["bts", "bts-testnet", "muse", "steem", "test", "gph", "ppy", "ppy-testnet"]

  /** Every chain the printer knows satisfies the condition on prefixes above. */
  lemma KnownChains(fmt: string)
    requires fmt in CHAINS
    ensures Lower(fmt) != "wif" && Lower(fmt) != "encwif" && Lower(fmt) != "btc"
    ensures ChainPrefix(fmt) == match fmt
                                case "bts" => "BTS"
                                case "bts-testnet" => "TEST"
                                case "muse" => "MUSE"
                                case "steem" => "STM"
                                case "test" => "TEST"
                                case "gph" => "GPH"
                                case "ppy" => "PPY"
                                case _ => "PPYTEST"
    ensures !IsHexText(ChainPrefix(fmt)) && ChainPrefix(fmt)[0] != '5' && ChainPrefix(fmt)[0] != '6'
  {
    assert Lower(fmt) == fmt;
    assert Upper("bts") == "BTS" && Upper("muse") == "MUSE" && Upper("test") == "TEST";
    assert Upper("gph") == "GPH" && Upper("ppy") == "PPY";
    var p := ChainPrefix(fmt);
    assert HexValue(p[0]) < 0 || HexValue(p[1]) < 0;
  }

  /** A bitcoin address starts with a `1` and carries version 0. */
  lemma BtcAddress(h: Hashes, hex: string, prefix: string)
    requires Unhexlify(hex).Some?
    ensures var p, text := Unhexlify(hex).value, Format(h, Key(hex, prefix), "btc");
            && text.Some? && text.value != "" && text.value[0] == '1'
            && (HasNonzero(p) ==> Checked(h.doubleSha256, text.value, [0] + p))
  {
    AddressFormat(h, hex, prefix);
    var p := Unhexlify(hex).value;
    CheckedBytes(h, 0, hex);
    AddressBytes(p, h.doubleSha256([0] + p));
  }

  lemma AddressFormat(h: Hashes, hex: string, prefix: string)
    ensures Format(h, Key(hex, prefix), "btc") == CheckEncode(h, 0, hex)
  {
    assert Lower("btc") == "btc";
  }

  lemma AddressBytes(p: seq<Byte>, sum: Sum4)
    ensures var text := EncodeBytes([0] + p + sum);
            && text != "" && text[0] == '1'
            && (HasNonzero(p) ==> DecodeText(text) == Some([0] + p + sum))
  {
    DecodeInvertsEncode([0] + p + sum);
    NonzeroOfBody(0, p, sum);
    FirstLetterOfZero([0] + p + sum);
  }

  lemma FirstLetterOfZero(bs: seq<Byte>)
    requires bs != [] && bs[0] == 0
    ensures EncodeBytes(bs) != "" && EncodeBytes(bs)[0] == '1'
  {
    ValueNonNegative(bs, 256);
    assert LeadingZeros(bs) > 0;
  }

  /** The remaining format is the key itself in Base58. */
  lemma EncwifIsPlain(h: Hashes, hex: string, prefix: string)
    requires Unhexlify(hex).Some? && HasNonzero(Unhexlify(hex).value)
    ensures var text := Format(h, Key(hex, prefix), "encwif");
            text.Some? && Decode(text.value) == Some(LowerHex(hex))
  {
    FormatEncwif(h, hex, prefix);
    EncodedIsRead(hex);
  }

  lemma FormatEncwif(h: Hashes, hex: string, prefix: string)
    ensures Format(h, Key(hex, prefix), "encwif") == Encode(hex)
  {
    assert Lower("encwif") == "encwif";
  }

  lemma EncodedIsRead(hex: string)
    requires Unhexlify(hex).Some? && HasNonzero(Unhexlify(hex).value)
    ensures Encode(hex).Some? && Decode(Encode(hex).value) == Some(LowerHex(hex))
  {
    DecodeInvertsEncode(Unhexlify(hex).value);
    UnhexInverts(hex);
  }

  // ---------------------------------------------------------------- what is accepted

  /** Hex text is taken as it is. */
  lemma ParseOfHex(h: Hashes, data: string, prefix: string)
    requires IsHexText(data)
    ensures Parse(h, data, prefix) == Some(Key(data, prefix))
  { }

  /** Other text that starts with `5` or `6` is taken exactly if it ends in the digest of what is in front,
      and then without the version byte. */
  lemma ParseOfWif(h: Hashes, data: string, prefix: string)
    requires !IsHexText(data) && data[0] in {'5', '6'}
    ensures Parse(h, data, prefix).Some? <==> exists body :: Checked(h.doubleSha256, data, body)
    ensures forall body :: Checked(h.doubleSha256, data, body) ==>
              Parse(h, data, prefix) == Some(Key(Hexlify(if body == [] then [] else body[1..]), prefix))
  {
    CheckDecodeAccepts(h, data);
  }

  /** Any other text is taken exactly if it is the prefix and a code that ends in the other digest of what
      is in front. */
  lemma ParseOfPrefixed(h: Hashes, data: string, prefix: string)
    requires !IsHexText(data) && data[0] !in {'5', '6'}
    ensures !(prefix <= data) ==> Parse(h, data, prefix).None?
    ensures prefix <= data ==>
              var code := data[|prefix|..];
              && (Parse(h, data, prefix).Some? <==> exists body :: Checked(h.ripemd160, code, body))
              && forall body :: Checked(h.ripemd160, code, body) ==>
                   Parse(h, data, prefix) == Some(Key(Hexlify(body), prefix))
  {
    if prefix <= data { BtsCheckDecodeAccepts(h, data[|prefix|..]); }
  }

  /** A mistyped check sum is noticed: of two texts with the same body and different last four bytes at
      most one is taken for a WIF key. */
  lemma OneCheckSumOnly(h: Hashes, a: string, b: string, body: seq<Byte>, x: Sum4, y: Sum4, prefix: string)
    requires !IsHexText(a) && a[0] in {'5', '6'} && !IsHexText(b) && b[0] in {'5', '6'}
    requires DecodeText(a) == Some(body + x) && DecodeText(b) == Some(body + y) && x != y
    ensures Parse(h, a, prefix).None? || Parse(h, b, prefix).None?
  {
    SplitSum(body, x);
    SplitSum(body, y);
  }
}
