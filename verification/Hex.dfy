/** Hexadecimal text, as `bytesToHex` and `hexToBytes` of `web/src/verify.ts` read and write it. */
module Hex {
  import opened Hashing

  function Digit(v: nat): char
    requires v < 16
  {
    if v < 10 then '0' + v as char else 'a' + (v - 10) as char
  }

  function DigitValue(c: char): Option<nat> {
    if '0' <= c <= '9' then Some((c - '0') as nat)
    else if 'a' <= c <= 'f' then Some((c - 'a') as nat + 10)
    else if 'A' <= c <= 'F' then Some((c - 'A') as nat + 10)
    else None
  }

  predicate IsHex(s: string) {
    |s| % 2 == 0 && forall i :: 0 <= i < |s| ==> DigitValue(s[i]).Some?
  }

  function ToHex(bytes: Bytes): (s: string)
    ensures |s| == 2 * |bytes|
  {
    if |bytes| == 0 then "" else [Digit(bytes[0] / 16), Digit(bytes[0] % 16)] + ToHex(bytes[1..])
  }

  /** hexToBytes on text it does not reject; IsHex is its rejection test. */
  function FromHex(s: string): (bytes: Bytes)
    requires IsHex(s)
    ensures 2 * |bytes| == |s|
  {
    if |s| == 0 then [] else
      assert DigitValue(s[0]).Some? && DigitValue(s[1]).Some?;
      DigitsBelow16(s[0]);
      DigitsBelow16(s[1]);
      [DigitValue(s[0]).value * 16 + DigitValue(s[1]).value] + FromHex(s[2..])
  }

  lemma DigitsBelow16(c: char)
    ensures DigitValue(c).Some? ==> DigitValue(c).value < 16
  {
  }

  function LowerChar(c: char): char {
    if 'A' <= c <= 'Z' then c - 'A' + 'a' else c
  }

  /** toLowerCase, on ASCII. */
  function Lower(s: string): (t: string)
    ensures |t| == |s|
  {
    seq(|s|, i requires 0 <= i < |s| => LowerChar(s[i]))
  }

  lemma DigitRoundTrip(v: nat)
    requires v < 16
    ensures DigitValue(Digit(v)) == Some(v) && LowerChar(Digit(v)) == Digit(v)
  {
  }

  lemma LowerDigit(c: char)
    requires DigitValue(c).Some?
    ensures DigitValue(c).value < 16 && Digit(DigitValue(c).value) == LowerChar(c)
  {
  }

  lemma IsHexUnfolds(s: string)
    requires |s| >= 2
    ensures IsHex(s) <==> DigitValue(s[0]).Some? && DigitValue(s[1]).Some? && IsHex(s[2..])
  {
    hide DigitValue;
    if IsHex(s[2..]) && DigitValue(s[0]).Some? && DigitValue(s[1]).Some? {
      forall i | 0 <= i < |s|
        ensures DigitValue(s[i]).Some?
      {
        assert i >= 2 ==> s[2..][i - 2] == s[i];
      }
    }
  }

  lemma FromHexUnfolds(s: string)
    requires |s| >= 2 && IsHex(s)
    ensures IsHex(s[2..]) && DigitValue(s[0]).Some? && DigitValue(s[1]).Some?
    ensures DigitValue(s[0]).value < 16 && DigitValue(s[1]).value < 16
    ensures FromHex(s) == [DigitValue(s[0]).value * 16 + DigitValue(s[1]).value] + FromHex(s[2..])
  {
    hide DigitValue;
    assert DigitValue(s[0]).Some? && DigitValue(s[1]).Some?;
    DigitsBelow16(s[0]);
    DigitsBelow16(s[1]);
  }

  lemma {:induction false} ToHexIsHex(bytes: Bytes)
    ensures IsHex(ToHex(bytes)) && FromHex(ToHex(bytes)) == bytes && Lower(ToHex(bytes)) == ToHex(bytes)
  {
    if |bytes| == 0 {
      LowerEmpty();
    } else {
      hide Digit, DigitValue, LowerChar, Lower, IsHex, FromHex;
      var s := ToHex(bytes);
      ToHexIsHex(bytes[1..]);
      DigitRoundTrip(bytes[0] / 16);
      DigitRoundTrip(bytes[0] % 16);
      assert s[2..] == ToHex(bytes[1..]) && s[0] == Digit(bytes[0] / 16) && s[1] == Digit(bytes[0] % 16);
      IsHexUnfolds(s);
      FromHexUnfolds(s);
      LowerUnfolds(s);
      assert bytes == [bytes[0]] + bytes[1..] && s == [s[0], s[1]] + s[2..];
    }
  }

  /** Decoding and encoding again lowercases. */
  lemma {:induction false} FromHexRoundTrip(s: string)
    requires IsHex(s)
    ensures ToHex(FromHex(s)) == Lower(s)
  {
    hide Lower, LowerChar, Digit, DigitValue;
    if |s| > 0 {
      assert DigitValue(s[0]).Some? && DigitValue(s[1]).Some?;
      var hi, lo := DigitValue(s[0]).value, DigitValue(s[1]).value;
      LowerDigit(s[0]);
      LowerDigit(s[1]);
      assert (hi * 16 + lo) / 16 == hi && (hi * 16 + lo) % 16 == lo;
      var bytes := FromHex(s);
      assert bytes[0] == hi * 16 + lo && bytes[1..] == FromHex(s[2..]);
      FromHexRoundTrip(s[2..]);
      LowerUnfolds(s);
    } else {
      LowerEmpty();
    }
  }

  /** Characters of one byte in every encoding at hand. */
  predicate IsAscii(text: string) {
    forall i :: 0 <= i < |text| ==> text[i] < 128 as char
  }

  lemma HexIsAscii(s: string)
    requires IsHex(s)
    ensures IsAscii(s)
  {
    forall i | 0 <= i < |s|
      ensures s[i] < 128 as char
    {
      assert DigitValue(s[i]).Some?;
    }
  }

  lemma LowerUnfolds(s: string)
    requires |s| >= 2
    ensures Lower(s) == [LowerChar(s[0]), LowerChar(s[1])] + Lower(s[2..])
  {
  }

  lemma LowerEmpty()
    ensures Lower("") == ""
  {
  }

  /** Comparing lowercased text is comparing the bytes it stands for. */
  lemma SameHexSameBytes(bytes: Bytes, s: string)
    requires IsHex(s)
    ensures ToHex(bytes) == Lower(s) <==> bytes == FromHex(s)
  {
    FromHexRoundTrip(s);
    ToHexIsHex(bytes);
    ToHexIsHex(FromHex(s));
  }
}
