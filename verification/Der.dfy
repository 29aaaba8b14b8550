/** `toRawSignature` of `web/src/verify.ts`: a DER-encoded ECDSA signature to the 64-byte r || s. */
module Der {
  import opened Hashing

  /** The result of a conversion that throws on malformed input. */
  datatype Converted = Raw(bytes: Bytes) | Throws

  /** Reading a byte array out of range yields `undefined`, here None. */
  function At(sig: Bytes, i: int): Option<Byte> {
    if 0 <= i < |sig| then Some(sig[i]) else None
  }

  /** sig.slice(from, to), which clamps both ends. */
  function Slice(sig: Bytes, from: nat, to: nat): (part: Bytes)
    ensures |part| <= if to <= from then 0 else to - from
  {
    if from >= |sig| || to <= from then [] else sig[from..if to < |sig| then to else |sig|]
  }

  function Zeros(n: nat): (z: Bytes)
    ensures |z| == n
  {
    seq(n, i => 0)
  }

  /** chunk written at offset 32 - n of a zeroed 32-byte array. */
  function Padded(chunk: Bytes, n: nat): (out: Bytes)
    requires |chunk| <= n <= 32
    ensures |out| == 32
  {
    Zeros(32 - n) + chunk + Zeros(n - |chunk|)
  }

  /** How many of the n bytes at start remain once leading zeros beyond 32 bytes are stripped. */
  function Stripped(sig: Bytes, start: nat, n: nat): (r: nat)
    ensures r <= n
    decreases n
  {
    if n > 32 && At(sig, start) == Some(0) then Stripped(sig, start + 1, n - 1) else n
  }

  /** readInt at an offset: the 32-byte integer and the offset behind it. A missing length byte makes
      the length `undefined`: the integer is zero and the next offset is NaN, here None. */
  function ReadInt(sig: Bytes, offset: Option<nat>): Option<(Bytes, Option<nat>)> {
    if offset.None? || At(sig, offset.value) != Some(2) then None
    else
      match At(sig, offset.value + 1)
      case None => Some((Zeros(32), None))
      case Some(len) =>
        var n := Stripped(sig, offset.value + 2, len);
        if n > 32 then None
        else
          var start := offset.value + 2 + (len - n);
          var chunk := Slice(sig, start, start + n);
          Some((Padded(chunk, n), Some(offset.value + 2 + len)))
  }

  function ToRaw(sig: Bytes): Converted {
    if |sig| == 64 then Raw(sig)
    else if At(sig, 0) != Some(0x30) then Throws
    else
      var offset := match At(sig, 1) case Some(b) => (if b >= 128 then 2 + b % 128 else 2) case None => 2;
      match ReadInt(sig, Some(offset))
      case None => Throws
      case Some(r) =>
        match ReadInt(sig, r.1)
        case None => Throws
        case Some(s) => Raw(r.0 + s.0)
  }

  /** The readInt closure: the integer read, or None for a throw, and the offset it leaves behind. */
  method ReadIntAt(sig: Bytes, offset: Option<nat>) returns (value: Option<Bytes>, next: Option<nat>)
    ensures match ReadInt(sig, offset)
            case None => value == None
            case Some(r) => value == Some(r.0) && next == r.1
  {
    hide Slice, Padded, Zeros;
    value, next := None, offset;
    if offset.None? || At(sig, offset.value) != Some(2) {
      return;
    }
    var len := At(sig, offset.value + 1);
    if len.None? {
      return Some(Zeros(32)), None;
    }
    var start, n := offset.value + 2, len.value as nat;
    while n > 32 && At(sig, start) == Some(0)
      invariant 0 <= n && start + n == offset.value + 2 + len.value
      invariant Stripped(sig, start, n) == Stripped(sig, offset.value + 2, len.value)
    {
      start := start + 1;
      n := n - 1;
    }
    if n > 32 {
      return;
    }
    next := Some(offset.value + 2 + len.value);
    value := Some(Padded(Slice(sig, start, start + n), n));
  }

  method ToRawSignature(sig: Bytes) returns (out: Converted)
    ensures out == ToRaw(sig)
  {
    if |sig| == 64 {
      return Raw(sig);
    }
    if At(sig, 0) != Some(0x30) {
      return Throws;
    }
    var offset: Option<nat> := Some(2);
    if At(sig, 1).Some? && At(sig, 1).value >= 128 {
      offset := Some(2 + At(sig, 1).value % 128);
    }
    var r, s;
    r, offset := ReadIntAt(sig, offset);
    if r.None? {
      return Throws;
    }
    s, offset := ReadIntAt(sig, offset);
    if s.None? {
      return Throws;
    }
    return Raw(r.value + s.value);
  }

  // ----- The encoder, from X.690 sections 8.1 and 8.3 -----

  /** The value of a big-endian byte string. */
  function Value(bytes: Bytes): nat {
    if |bytes| == 0 then 0 else Value(bytes[..|bytes| - 1]) * 256 + bytes[|bytes| - 1]
  }

  /** Big-endian digits of v without leading zeros. */
  function Digits(v: nat): Bytes {
    if v == 0 then [] else Digits(v / 256) + [v % 256]
  }

  /** The fewest two's-complement octets of a non-negative integer (section 8.3.2). */
  function Octets(v: nat): Bytes {
    var d := Digits(v);
    if |d| == 0 || d[0] >= 128 then [0] + d else d
  }

  function EncodeInteger(v: nat): Bytes
    requires |Octets(v)| < 128
  {
    [2, |Octets(v)|] + Octets(v)
  }

  /** SEQUENCE of the two INTEGERs, in the short form. */
  function EncodeSignature(r: nat, s: nat): Bytes
    requires |Octets(r)| <= 33 && |Octets(s)| <= 33
  {
    var body := EncodeInteger(r) + EncodeInteger(s);
    [0x30, |body|] + body
  }

  /** v as 32 big-endian bytes. */
  function BigEndian32(v: nat): Bytes
    requires |Digits(v)| <= 32
  {
    Zeros(32 - |Digits(v)|) + Digits(v)
  }

  lemma {:induction false} DigitsValue(v: nat)
    ensures Value(Digits(v)) == v && (v > 0 ==> Digits(v)[0] != 0)
  {
    if v > 0 {
      DigitsValue(v / 256);
      var d := Digits(v);
      assert d[..|d| - 1] == Digits(v / 256);
      if v / 256 > 0 {
        assert d[0] == Digits(v / 256)[0];
      }
    }
  }

  function Pow256(n: nat): (p: nat)
    ensures p > 0
  {
    if n == 0 then 1 else 256 * Pow256(n - 1)
  }

  lemma {:induction false} DigitsLength(v: nat, n: nat)
    requires v < Pow256(n)
    ensures |Digits(v)| <= n
  {
    if v > 0 {
      DigitsLength(v / 256, n - 1);
    }
  }

  lemma {:induction false} ValueOfPadded(k: nat, bytes: Bytes)
    ensures Value(Zeros(k) + bytes) == Value(bytes)
    decreases k + |bytes|
  {
    var whole := Zeros(k) + bytes;
    if |bytes| > 0 {
      assert whole[..|whole| - 1] == Zeros(k) + bytes[..|bytes| - 1];
      ValueOfPadded(k, bytes[..|bytes| - 1]);
    } else if k > 0 {
      assert whole[..k - 1] == Zeros(k - 1) + bytes;
      ValueOfPadded(k - 1, bytes);
    }
  }

  /** BigEndian32 is the 32-byte encoding of its argument. */
  lemma BigEndian32Value(v: nat)
    requires v < Pow256(32)
    ensures |Digits(v)| <= 32 && |BigEndian32(v)| == 32 && Value(BigEndian32(v)) == v
  {
    DigitsLength(v, 32);
    BigEndian32Reads(v);
  }

  lemma OctetsLength(v: nat)
    requires v < Pow256(32)
    ensures |Digits(v)| <= 32 && 1 <= |Octets(v)| <= 33
  {
    DigitsLength(v, 32);
  }

  // ----- Any encoding, minimal or not -----

  lemma {:induction false} ValueAtLeast(bytes: Bytes)
    requires |bytes| > 0 && bytes[0] != 0
    ensures Value(bytes) >= Pow256(|bytes| - 1)
  {
    if |bytes| > 1 {
      ValueAtLeast(bytes[..|bytes| - 1]);
    }
  }

  lemma {:induction false} ValueBelow(bytes: Bytes)
    ensures Value(bytes) < Pow256(|bytes|)
  {
    if |bytes| > 0 {
      ValueBelow(bytes[..|bytes| - 1]);
    }
  }

  lemma LeadingZero(bytes: Bytes)
    requires |bytes| > 0 && bytes[0] == 0
    ensures Value(bytes[1..]) == Value(bytes)
  {
    ValueOfPadded(1, bytes[1..]);
    assert bytes == Zeros(1) + bytes[1..];
  }

  /** Stripping leading zeros keeps the value, and more than 32 bytes remain only of a larger integer. */
  lemma {:induction false} StrippedValue(sig: Bytes, start: nat, o: Bytes)
    requires start + |o| <= |sig| && sig[start..start + |o|] == o
    ensures var n := Stripped(sig, start, |o|);
            Value(o[|o| - n..]) == Value(o) && (n > 32 <==> Value(o) >= Pow256(32))
    decreases |o|
  {
    hide Value, Pow256;
    if |o| > 32 && o[0] == 0 {
      assert sig[start] == o[0] && sig[start + 1..start + 1 + |o[1..]|] == o[1..];
      StrippedValue(sig, start + 1, o[1..]);
      LeadingZero(o);
      var n := Stripped(sig, start + 1, |o| - 1);
      assert o[1..][|o| - 1 - n..] == o[|o| - n..];
    } else {
      assert |o| > 32 ==> sig[start] == o[0];
      assert o[0..] == o;
      ValueBelow(o);
      if |o| > 32 {
        ValueAtLeast(o);
        PowersInOrder(32, |o| - 1);
      } else {
        PowersInOrder(|o|, 32);
      }
    }
  }

  lemma PowersInOrder(m: nat, n: nat)
    requires m <= n
    ensures Pow256(m) <= Pow256(n)
  {
    if m < n {
      Pow256Grows(m, n);
    }
  }

  /** The value of a byte string below 2^256, in 32 bytes. */
  function ValueIn32(o: Bytes): Bytes
    requires Value(o) < Pow256(32)
  {
    BigEndian32Value(Value(o));
    BigEndian32(Value(o))
  }

  lemma PaddedValue(chunk: Bytes, n: nat)
    requires |chunk| <= n <= 32
    ensures var whole := chunk + Zeros(n - |chunk|);
            Value(whole) < Pow256(32) && Padded(chunk, n) == ValueIn32(whole)
  {
    hide Value, Pow256, Digits, BigEndian32, Padded, Zeros;
    var whole := chunk + Zeros(n - |chunk|);
    ValueBelow(whole);
    PowersInOrder(|whole|, 32);
    ValueOfPadded(32 - n, whole);
    PaddedIs(chunk, n);
    ValueOf32(Padded(chunk, n));
  }

  lemma PaddedIs(chunk: Bytes, n: nat)
    requires |chunk| <= n <= 32
    ensures Padded(chunk, n) == Zeros(32 - n) + (chunk + Zeros(n - |chunk|))
  {
    hide Zeros;
  }

  lemma ReadsAt(sig: Bytes, at: nat, len: Byte)
    requires at + 1 < |sig| && sig[at] == 2 && sig[at + 1] == len
    ensures var n := Stripped(sig, at + 2, len);
            ReadInt(sig, Some(at))
            == if n > 32 then None
               else Some((Padded(Slice(sig, at + 2 + (len - n), at + 2 + len), n), Some(at + 2 + len)))
  {
    hide Stripped, Padded, Slice;
  }

  /** The INTEGER with the octets o stands at that place. */
  predicate IntegerAt(sig: Bytes, at: nat, o: Bytes) {
    && |o| < 256 && at + 2 + |o| <= |sig| && sig[at] == 2 && sig[at + 1] == |o|
    && sig[at + 2..at + 2 + |o|] == o
  }

  lemma StandsAt(sig: Bytes, prefix: Bytes, o: Bytes, suffix: Bytes)
    requires |o| < 256 && sig == prefix + ([2, |o|] + o) + suffix
    ensures IntegerAt(sig, |prefix|, o)
  {
  }

  lemma SliceOf(sig: Bytes, start: nat, o: Bytes, n: nat)
    requires start + |o| <= |sig| && sig[start..start + |o|] == o && n <= |o|
    ensures Slice(sig, start + (|o| - n), start + |o|) == o[|o| - n..]
  {
    var from := start + (|o| - n);
    assert sig[start..start + |o|][|o| - n..] == sig[from..start + |o|];
    assert Slice(sig, from, start + |o|) == sig[from..start + |o|];
  }

  /** An integer of any length, wherever it stands: its value in 32 bytes, or a throw exactly if it needs
      more. */
  lemma ReadsIntegerAt(sig: Bytes, at: nat, o: Bytes)
    requires IntegerAt(sig, at, o)
    ensures ReadInt(sig, Some(at))
         == if Value(o) >= Pow256(32) then None else Some((ValueIn32(o), Some(at + 2 + |o|)))
  {
    hide IntegerAt, Value, Pow256, ValueIn32, ReadInt, Padded, Stripped;
    var n := KeptOctets(sig, at, o);
    if n <= 32 {
      WholePadded(o[|o| - n..]);
      SameValueIn32(o[|o| - n..], o);
    }
  }

  /** The octets that remain have the value of all, and at most 32 remain exactly of a value below 2^256. */
  lemma KeptOctets(sig: Bytes, at: nat, o: Bytes) returns (n: nat)
    requires IntegerAt(sig, at, o)
    ensures n <= |o| && Value(o[|o| - n..]) == Value(o) && (n > 32 <==> Value(o) >= Pow256(32))
    ensures ReadInt(sig, Some(at)) == if n > 32 then None else Some((Padded(o[|o| - n..], n), Some(at + 2 + |o|)))
  {
    hide Value, Pow256, ReadInt, Padded, Stripped, Slice;
    n := Stripped(sig, at + 2, |o|);
    StrippedValue(sig, at + 2, o);
    ReadsAt(sig, at, |o|);
    SliceOf(sig, at + 2, o, n);
  }

  lemma WholePadded(chunk: Bytes)
    requires |chunk| <= 32
    ensures Value(chunk) < Pow256(32) && Padded(chunk, |chunk|) == ValueIn32(chunk)
  {
    hide Value, Pow256, ValueIn32, Padded;
    assert chunk + Zeros(0) == chunk;
    PaddedValue(chunk, |chunk|);
  }

  lemma SameValueIn32(a: Bytes, b: Bytes)
    requires Value(a) == Value(b) < Pow256(32)
    ensures ValueIn32(a) == ValueIn32(b)
  {
  }

  /** What stands before the first integer: the SEQUENCE tag and a length in the short or the long form,
      which the conversion skips unread. */
  predicate IsHead(head: Bytes) {
    |head| >= 2 && head[0] == 0x30 && |head| == if head[1] >= 128 then 2 + head[1] % 128 else 2
  }

  lemma FirstOffset(sig: Bytes, head: Bytes, rest: Bytes)
    requires IsHead(head) && sig == head + rest
    ensures At(sig, 0) == Some(0x30)
    ensures (match At(sig, 1) case Some(b) => (if b >= 128 then 2 + b % 128 else 2) case None => 2) == |head|
  {
    assert sig[0] == head[0] && sig[1] == head[1];
  }

  /** Minimal or not, with a header in either form and with or without trailing bytes: two integers are
      converted by value, and refused exactly if one of them needs more than 32 bytes. */
  lemma {:induction false} DerReadsValues(head: Bytes, r: Bytes, s: Bytes, suffix: Bytes)
    requires IsHead(head) && |r| < 256 && |s| < 256
    requires |head + ([2, |r|] + r) + ([2, |s|] + s) + suffix| != 64
    ensures ToRaw(head + ([2, |r|] + r) + ([2, |s|] + s) + suffix)
         == if Value(r) < Pow256(32) && Value(s) < Pow256(32) then Raw(ValueIn32(r) + ValueIn32(s)) else Throws
  {
    hide ReadInt, Value, Pow256, ValueIn32, IsHead, IntegerAt;
    var er, es := [2, |r|] + r, [2, |s|] + s;
    var sig := head + er + es + suffix;
    assert sig == head + er + (es + suffix) && sig == (head + er) + es + suffix;
    assert sig == head + (er + es + suffix);
    FirstOffset(sig, head, er + es + suffix);
    StandsAt(sig, head, r, es + suffix);
    ReadsIntegerAt(sig, |head|, r);
    StandsAt(sig, head + er, s, suffix);
    ReadsIntegerAt(sig, |head + er|, s);
  }

  /** A second integer cut short is not refused: the missing bytes are read as zeros. */
  lemma {:induction false} TruncatedIsZeroFilled(head: Bytes, r: Bytes, len: Byte, s: Bytes)
    requires IsHead(head) && |r| < 256 && Value(r) < Pow256(32) && |s| < len <= 32
    requires |head + ([2, |r|] + r) + ([2, len] + s)| != 64
    ensures Value(s + Zeros(len - |s|)) < Pow256(32)
    ensures ToRaw(head + ([2, |r|] + r) + ([2, len] + s)) == Raw(ValueIn32(r) + ValueIn32(s + Zeros(len - |s|)))
  {
    hide ReadInt, Value, Pow256, ValueIn32, IsHead, IntegerAt;
    var er, es := [2, |r|] + r, [2, len] + s;
    var sig := head + er + es;
    assert sig == head + (er + es);
    FirstOffset(sig, head, er + es);
    StandsAt(sig, head, r, es);
    ReadsIntegerAt(sig, |head|, r);
    PaddedValue(s, len);
    ReadsCutInteger(sig, head + er, len, s);
  }

  lemma ReadsCutInteger(sig: Bytes, prefix: Bytes, len: Byte, s: Bytes)
    requires |s| < len <= 32 && sig == prefix + ([2, len] + s)
    ensures ReadInt(sig, Some(|prefix|)) == Some((Padded(s, len), Some(|prefix| + 2 + len)))
  {
    hide Padded;
    var at := |prefix|;
    assert sig[at] == 2 && sig[at + 1] == len;
    assert Slice(sig, at + 2, at + 2 + len) == s;
  }

  /** Nor is a signature that ends with the tag of the second integer, which is read as zero. */
  lemma {:induction false} MissingLengthIsZero(head: Bytes, r: Bytes)
    requires IsHead(head) && |r| < 256 && Value(r) < Pow256(32) && |head + ([2, |r|] + r) + [2]| != 64
    ensures ToRaw(head + ([2, |r|] + r) + [2]) == Raw(ValueIn32(r) + Zeros(32))
  {
    hide Value, Pow256, ValueIn32, IsHead, IntegerAt, Stripped, Slice, Padded;
    var er := [2, |r|] + r;
    var sig := head + er + [2];
    assert sig == head + (er + [2]);
    FirstOffset(sig, head, er + [2]);
    StandsAt(sig, head, r, [2]);
    ReadsIntegerAt(sig, |head|, r);
    assert sig[|head + er|] == 2;
  }

  /** Anything else is refused: no SEQUENCE tag, or another tag than INTEGER, or nothing, where either
      integer should stand. */
  lemma {:induction false} OtherTagThrows(sig: Bytes, head: Bytes, r: Bytes, suffix: Bytes)
    requires |sig| != 64 && |r| < 256
    requires || |sig| == 0 || sig[0] != 0x30
             || At(sig, if |sig| >= 2 && sig[1] >= 128 then 2 + sig[1] % 128 else 2) != Some(2)
             || (IsHead(head) && sig == head + ([2, |r|] + r) + suffix && (|suffix| == 0 || suffix[0] != 2))
    ensures ToRaw(sig) == Throws
  {
    hide Value, Pow256, ValueIn32, IsHead, IntegerAt, Stripped, Slice, Padded;
    var first := if |sig| >= 2 && sig[1] >= 128 then 2 + sig[1] % 128 else 2;
    if |sig| > 0 && sig[0] == 0x30 && At(sig, first) == Some(2) {
      var er := [2, |r|] + r;
      assert sig == head + (er + suffix);
      FirstOffset(sig, head, er + suffix);
      StandsAt(sig, head, r, suffix);
      ReadsIntegerAt(sig, |head|, r);
      assert |suffix| > 0 ==> sig[|head + er|] == suffix[0];
    }
  }

  // ----- Minimal encodings -----

  lemma OctetsValue(v: nat)
    requires v < Pow256(32) && |Digits(v)| <= 32
    ensures Value(Octets(v)) == v && ValueIn32(Octets(v)) == BigEndian32(v)
  {
    hide Value, Digits, Pow256, BigEndian32;
    DigitsValue(v);
    LeadingZero([0] + Digits(v));
    assert ([0] + Digits(v))[1..] == Digits(v);
  }

  lemma DerDecodes(r: nat, s: nat, der: Bytes)
    requires r < Pow256(32) && s < Pow256(32) && |Octets(r)| <= 33 && |Octets(s)| <= 33
    requires |Digits(r)| <= 32 && |Digits(s)| <= 32 && der == EncodeSignature(r, s) && |der| != 64
    ensures ToRaw(der) == Raw(BigEndian32(r) + BigEndian32(s))
  {
    hide ToRaw, Octets, Pow256, Value, Digits, BigEndian32, ValueIn32;
    var er, es := EncodeInteger(r), EncodeInteger(s);
    var head := [0x30, |er| + |es|];
    assert der == head + er + es + [];
    OctetsValue(r);
    OctetsValue(s);
    DerReadsValues(head, Octets(r), Octets(s), []);
  }

  /** Converting a minimal DER signature gives r || s exactly when its encoding is not itself 64 bytes
      long; a 64-byte encoding is taken for a raw signature and returned unchanged. */
  lemma {:induction false} DerRoundTrip(r: nat, s: nat)
    requires r < Pow256(32) && s < Pow256(32)
    ensures |Digits(r)| <= 32 && |Digits(s)| <= 32 && |Octets(r)| <= 33 && |Octets(s)| <= 33
    ensures var der := EncodeSignature(r, s);
            (ToRaw(der) == Raw(BigEndian32(r) + BigEndian32(s)) <==> |der| != 64)
            && (|der| == 64 <==> |Octets(r)| + |Octets(s)| == 58) && (|der| == 64 ==> ToRaw(der) == Raw(der))
  {
    hide ReadInt, Digits, Octets, Pow256, BigEndian32;
    OctetsLength(r);
    OctetsLength(s);
    var der := EncodeSignature(r, s);
    if |der| != 64 {
      DerDecodes(r, s, der);
    } else {
      DerIsNotRaw(r, s);
    }
  }

  /** A 64-byte encoding is never the raw form of the signature it encodes. */
  lemma DerIsNotRaw(r: nat, s: nat)
    requires |Digits(r)| <= 32 && |Digits(s)| <= 32
    requires |Octets(r)| <= 33 && |Octets(s)| <= 33 && |EncodeSignature(r, s)| == 64
    ensures EncodeSignature(r, s) != BigEndian32(r) + BigEndian32(s)
  {
    hide Digits;
    var der, raw := EncodeSignature(r, s), BigEndian32(r) + BigEndian32(s);
    assert der[0] == 0x30 && raw[0] == BigEndian32(r)[0];
    if |Digits(r)| == 32 && Digits(r)[0] < 128 {
      assert raw[36] == BigEndian32(s)[4] == 0;
      assert der == [0x30, |EncodeInteger(r)| + |EncodeInteger(s)|] + EncodeInteger(r) + EncodeInteger(s);
      assert der[36] == EncodeInteger(s)[0] == 2;
    }
  }

  lemma {:induction false} DigitsOfPower(n: nat)
    ensures Digits(Pow256(n)) == [1] + Zeros(n)
  {
    if n == 0 {
      assert Digits(0) == [];
    } else {
      DigitsOfPower(n - 1);
      assert Pow256(n) / 256 == Pow256(n - 1) && Pow256(n) % 256 == 0;
    }
  }

  lemma {:induction false} Pow256Grows(m: nat, n: nat)
    requires m < n
    ensures Pow256(m) < Pow256(n)
  {
    if m < n - 1 {
      Pow256Grows(m, n - 1);
    }
  }

  /** Such signatures exist: with r = s = 2^224 both integers take 29 octets and the encoding 64 bytes,
      and it is returned as it stands, which is not r || s. */
  lemma {:induction false} SixtyFourByteDerIsMisread()
    ensures var r := Pow256(28);
            && r < Pow256(32) && |Digits(r)| <= 32 && |Octets(r)| == 29
            && |EncodeSignature(r, r)| == 64
            && ToRaw(EncodeSignature(r, r)) != Raw(BigEndian32(r) + BigEndian32(r))
  {
    hide ToRaw, Pow256, Digits;
    Pow256Grows(28, 32);
    DigitsOfPower(28);
    DerRoundTrip(Pow256(28), Pow256(28));
  }

  /** 32 bytes are the encoding of their own value. */
  lemma {:induction false} ValueOf32(bytes: Bytes)
    requires |bytes| == 32
    ensures |Digits(Value(bytes))| <= 32 && BigEndian32(Value(bytes)) == bytes
  {
    DigitsOfValue(bytes);
    var d := Digits(Value(bytes));
    assert Zeros(|bytes| - |d|) + d == bytes;
  }

  lemma {:induction false} DigitsOfValue(bytes: Bytes)
    ensures |Digits(Value(bytes))| <= |bytes|
    ensures Zeros(|bytes| - |Digits(Value(bytes))|) + Digits(Value(bytes)) == bytes
  {
    if |bytes| > 0 {
      var front, last := bytes[..|bytes| - 1], bytes[|bytes| - 1];
      DigitsOfValue(front);
      assert bytes == front + [last];
      var v := Value(bytes);
      assert v / 256 == Value(front) && v % 256 == last;
      if v == 0 {
        assert Digits(Value(front)) == [];
      }
    }
  }

  /** Every 64-byte input is the raw form r || s of exactly one pair of integers, and converts to it: a
      raw signature keeps its value, whatever it looks like. */
  lemma RawIsUnchanged(sig: Bytes)
    requires |sig| == 64
    ensures var r, s := Value(sig[..32]), Value(sig[32..]);
            && |Digits(r)| <= 32 && |Digits(s)| <= 32 && ToRaw(sig) == Raw(BigEndian32(r) + BigEndian32(s))
            && forall r', s' :: |Digits(r')| <= 32 && |Digits(s')| <= 32 && sig == BigEndian32(r') + BigEndian32(s')
                 ==> r' == r && s' == s
  {
    hide Digits, Value, BigEndian32;
    ValueOf32(sig[..32]);
    ValueOf32(sig[32..]);
    assert sig == sig[..32] + sig[32..];
    forall r', s' | |Digits(r')| <= 32 && |Digits(s')| <= 32 && sig == BigEndian32(r') + BigEndian32(s')
      ensures r' == Value(sig[..32]) && s' == Value(sig[32..])
    {
      BigEndian32Reads(r');
      BigEndian32Reads(s');
      assert sig[..32] == BigEndian32(r') && sig[32..] == BigEndian32(s');
    }
  }

  lemma BigEndian32Reads(v: nat)
    requires |Digits(v)| <= 32
    ensures |BigEndian32(v)| == 32 && Value(BigEndian32(v)) == v
  {
    DigitsValue(v);
    ValueOfPadded(32 - |Digits(v)|, Digits(v));
  }
}
