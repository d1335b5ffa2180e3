/** Hexadecimal text, as `hexlify` and `unhexlify` of Python's binascii read and write it. */
module Hex {
  import opened Wrappers

  type Byte = n: nat | n < 256

  const HEX_DIGITS := "0123456789abcdef"

  function HexValue(c: char): (v: int)
    ensures -1 <= v < 16
  {
    if '0' <= c <= '9' then c as int - '0' as int
    else if 'a' <= c <= 'f' then c as int - 'a' as int + 10
    else if 'A' <= c <= 'F' then c as int - 'A' as int + 10
    else -1
  }

  predicate IsHexText(s: string) {
    forall i :: 0 <= i < |s| ==> HexValue(s[i]) >= 0
  }

  function LowerChar(c: char): char {
    if 'A' <= c <= 'F' then (c as int + 32) as char else c
  }

  function LowerHex(s: string): string {
    seq(|s|, i requires 0 <= i < |s| => LowerChar(s[i]))
  }

  function HexDigit(d: nat): char
    requires d < 16
  {
    HEX_DIGITS[d]
  }

  function HexPair(b: Byte): string {
    [HexDigit(b / 16), HexDigit(b % 16)]
  }

  function Hexlify(bs: seq<Byte>): (s: string)
    ensures |s| == 2 * |bs|
  {
    if bs == [] then "" else HexPair(bs[0]) + Hexlify(bs[1..])
  }

  function PairValue(x: char, y: char): Byte
    requires HexValue(x) >= 0 && HexValue(y) >= 0
  {
    HexValue(x) * 16 + HexValue(y)
  }

  /** None stands for the exception raised on an odd length or on a character that is no hex digit. */
  function Unhexlify(s: string): (r: Option<seq<Byte>>)
  {
    if s == "" then Some([])
    else if |s| == 1 || HexValue(s[0]) < 0 || HexValue(s[1]) < 0 then None
    else match Unhexlify(s[2..])
      case None => None
      case Some(bs) => Some([PairValue(s[0], s[1])] + bs)
  }

  /** The characters of hex text. */
  lemma HexCharacters(c: char)
    ensures HexValue(c) >= 0 <==> c in "0123456789abcdefABCDEF"
  {
    var all := "0123456789abcdefABCDEF";
    if '0' <= c <= '9' {
      assert all[c as int - '0' as int] == c;
    } else if 'a' <= c <= 'f' {
      assert all[10 + (c as int - 'a' as int)] == c;
    } else if 'A' <= c <= 'F' {
      assert all[16 + (c as int - 'A' as int)] == c;
    }
  }

  lemma DigitOfValue(c: char)
    requires HexValue(c) >= 0
    ensures HexDigit(HexValue(c)) == LowerChar(c)
  { }

  lemma ValueOfDigit(d: nat)
    requires d < 16
    ensures HexValue(HexDigit(d)) == d && LowerChar(HexDigit(d)) == HexDigit(d)
  { }

  lemma PairReads(b: Byte)
    ensures IsHexText(HexPair(b)) && LowerHex(HexPair(b)) == HexPair(b)
    ensures PairValue(HexPair(b)[0], HexPair(b)[1]) == b
  {
    ValueOfDigit(b / 16);
    ValueOfDigit(b % 16);
  }

  lemma LowerAppend(a: string, b: string)
    ensures LowerHex(a + b) == LowerHex(a) + LowerHex(b)
  { }

  lemma {:induction false} HexInverts(bs: seq<Byte>)
    ensures IsHexText(Hexlify(bs)) && LowerHex(Hexlify(bs)) == Hexlify(bs)
    ensures Unhexlify(Hexlify(bs)) == Some(bs)
  {
    if bs != [] {
      HexInverts(bs[1..]);
      PairInFront(bs[0], Hexlify(bs[1..]));
      assert bs == [bs[0]] + bs[1..];
    }
  }

  lemma PairInFront(b: Byte, t: string)
    requires IsHexText(t) && LowerHex(t) == t && Unhexlify(t).Some?
    ensures var s := HexPair(b) + t;
            IsHexText(s) && LowerHex(s) == s && Unhexlify(s) == Some([b] + Unhexlify(t).value)
  {
    var p := HexPair(b);
    PairReads(b);
    HexTextAppend(p, t);
    LowerAppend(p, t);
    UnhexOfPair(p, t);
  }

  lemma UnhexOfPair(p: string, t: string)
    requires |p| == 2 && IsHexText(p) && Unhexlify(t).Some?
    ensures Unhexlify(p + t) == Some([PairValue(p[0], p[1])] + Unhexlify(t).value)
  {
    var s := p + t;
    assert s[2..] == t && s[0] == p[0] && s[1] == p[1];
  }

  lemma HexTextAppend(a: string, b: string)
    ensures IsHexText(a + b) <==> IsHexText(a) && IsHexText(b)
  {
    assert forall i :: 0 <= i < |a| ==> a[i] == (a + b)[i];
    assert forall i :: 0 <= i < |b| ==> b[i] == (a + b)[|a| + i];
  }

  /** Each byte is written as its high and its low digit. */
  lemma {:induction false} HexDigits(bs: seq<Byte>, i: nat)
    requires i < |bs|
    ensures Hexlify(bs)[2 * i] == "0123456789abcdef"[bs[i] / 16]
    ensures Hexlify(bs)[2 * i + 1] == "0123456789abcdef"[bs[i] % 16]
  {
    if i > 0 { HexDigits(bs[1..], i - 1); }
  }

  /** Text is readable exactly when it is hex text of even length. */
  lemma {:induction false} Readable(s: string)
    ensures Unhexlify(s).Some? <==> |s| % 2 == 0 && IsHexText(s)
  {
    if |s| >= 2 {
      Readable(s[2..]);
      HexTextAppend(s[..2], s[2..]);
      assert s == s[..2] + s[2..];
      assert IsHexText(s[..2]) <==> HexValue(s[0]) >= 0 && HexValue(s[1]) >= 0;
    }
  }

  lemma PairOfDigits(x: char, y: char)
    requires HexValue(x) >= 0 && HexValue(y) >= 0
    ensures HexPair(PairValue(x, y)) == [LowerChar(x), LowerChar(y)]
  {
    var hi, lo := HexValue(x), HexValue(y);
    Nibbles(hi, lo);
    assert HexPair(PairValue(x, y)) == [HexDigit(hi), HexDigit(lo)];
    DigitOfValue(x);
    DigitOfValue(y);
  }

  lemma Nibbles(hi: nat, lo: nat)
    requires hi < 16 && lo < 16
    ensures hi * 16 + lo < 256 && (hi * 16 + lo) / 16 == hi && (hi * 16 + lo) % 16 == lo
  { }

  lemma HexlifyCons(n: Byte, rest: seq<Byte>)
    ensures Hexlify([n] + rest) == HexPair(n) + Hexlify(rest)
  {
    assert ([n] + rest)[1..] == rest;
  }

  lemma LowerPair(s: string)
    requires |s| >= 2
    ensures LowerHex(s) == [LowerChar(s[0]), LowerChar(s[1])] + LowerHex(s[2..])
  { }

  /** Reading hex text and writing it back lower-cases it. */
  lemma {:induction false} UnhexInverts(s: string)
    requires Unhexlify(s).Some?
    ensures Hexlify(Unhexlify(s).value) == LowerHex(s)
    ensures |s| == 2 * |Unhexlify(s).value|
  {
    if s != "" {
      UnhexInverts(s[2..]);
      PairOfDigits(s[0], s[1]);
      HexlifyCons(PairValue(s[0], s[1]), Unhexlify(s[2..]).value);
      LowerPair(s);
    }
  }

  lemma {:induction false} HexlifyAppend(a: seq<Byte>, b: seq<Byte>)
    ensures Hexlify(a + b) == Hexlify(a) + Hexlify(b)
  {
    if a == [] {
      assert a + b == b;
    } else {
      HexlifyAppend(a[1..], b);
      var c := a + b;
      assert c[0] == a[0] && c[1..] == a[1..] + b;
      Associate(HexPair(a[0]), Hexlify(a[1..]), Hexlify(b));
    }
  }

  lemma Associate(x: string, y: string, z: string)
    ensures x + (y + z) == (x + y) + z
  { }

  lemma {:induction false} UnhexlifyAppend(s: string, t: string)
    requires |s| % 2 == 0
    ensures Unhexlify(s + t).Some? <==> Unhexlify(s).Some? && Unhexlify(t).Some?
    ensures Unhexlify(s + t).Some? ==> Unhexlify(s + t).value == Unhexlify(s).value + Unhexlify(t).value
  {
    if s == "" {
      assert s + t == t;
    } else {
      UnhexlifyAppend(s[2..], t);
      assert (s + t)[2..] == s[2..] + t;
    }
  }
}
