/**
 Text as UTF-16 code units, and its UTF-8 bytes as Node reads and writes them: reading
 puts U+FFFD for each maximal ill-formed part, writing does so for each lone surrogate.
 Well-formed sequences are those of section 4 of RFC 3629.
 */
module Utf8 {
  import opened Basics

  /** A UTF-16 code unit. */
  type Unit = x: int | 0 <= x < 0x1_0000

  type Text = seq<Unit>

  predicate HighSurrogate(u: Unit) { 0xD800 <= u < 0xDC00 }

  predicate LowSurrogate(u: Unit) { 0xDC00 <= u < 0xE000 }

  /** A Unicode scalar value. */
  predicate IsScalar(c: int) { 0 <= c < 0xD800 || 0xE000 <= c < 0x11_0000 }

  const REPLACEMENT := 0xFFFD

  /** A text written out in the scripts. */
  function FromAscii(s: string): (t: Text)
    ensures |t| == |s| && forall k | 0 <= k < |s| :: t[k] == s[k] as int % 0x1_0000
  {
    seq(|s|, k requires 0 <= k < |s| => s[k] as int % 0x1_0000)
  }

  // ---------- Reading ----------

  /** The length of the sequence a first byte announces, or zero if it announces none. */
  function Announced(first: byte): nat {
    if first < 0x80 then 1
    else if first < 0xC2 then 0
    else if first < 0xE0 then 2
    else if first < 0xF0 then 3
    else if first <= 0xF4 then 4
    else 0
  }

  predicate IsTail(b: byte) { 0x80 <= b < 0xC0 }

  /** The second byte rules out overlong forms, surrogates and values above the last scalar. */
  predicate IsSecond(first: byte, b: byte) {
    && IsTail(b)
    && (first == 0xE0 ==> b >= 0xA0) && (first == 0xED ==> b < 0xA0)
    && (first == 0xF0 ==> b >= 0x90) && (first == 0xF4 ==> b < 0x90)
  }

  /** The length of the longest start of the bytes that is a start of a well-formed sequence, or one. */
  function Taken(s: Bytes): (n: nat)
    requires s != []
    ensures 1 <= n <= |s| && n <= 4
  {
    var announced := Announced(s[0]);
    if announced <= 1 || |s| < 2 || !IsSecond(s[0], s[1]) then 1
    else if announced == 2 || |s| < 3 || !IsTail(s[2]) then 2
    else if announced == 3 || |s| < 4 || !IsTail(s[3]) then 3
    else 4
  }

  /** The bytes start with a well-formed sequence. */
  predicate StartsWell(s: Bytes) { s != [] && Announced(s[0]) == Taken(s) }

  /** The bytes are well-formed sequences throughout. */
  predicate ValidUtf8(s: Bytes) { s == [] || (StartsWell(s) && ValidUtf8(s[Taken(s)..])) }

  function ScalarAt(s: Bytes): (c: int)
    requires StartsWell(s)
    ensures IsScalar(c)
  {
    match Taken(s)
    case 1 => s[0] as int
    case 2 => (s[0] as int - 0xC0) * 64 + (s[1] as int - 0x80)
    case 3 => ((s[0] as int - 0xE0) * 64 + (s[1] as int - 0x80)) * 64 + (s[2] as int - 0x80)
    case _ =>
      (((s[0] as int - 0xF0) * 64 + (s[1] as int - 0x80)) * 64 + (s[2] as int - 0x80)) * 64 + (s[3] as int - 0x80)
  }

  function Units(c: int): Text
    requires IsScalar(c)
  {
    if c < 0x1_0000 then [c] else [0xD800 + (c - 0x1_0000) / 1024, 0xDC00 + (c - 0x1_0000) % 1024]
  }

  function Decode(s: Bytes): Text {
    if s == [] then []
    else Units(if StartsWell(s) then ScalarAt(s) else REPLACEMENT) + Decode(s[Taken(s)..])
  }

  // ---------- Writing ----------

  function EncodeScalar(c: int): (s: Bytes)
    requires IsScalar(c)
    ensures 1 <= |s| <= 4 && (c < 0x80 ==> |s| == 1) && (c < 0x1_0000 ==> |s| <= 3)
  {
    var (high, low) := (c / 64, (0x80 + c % 64) as byte);
    if c < 0x80 then [c as byte]
    else if c < 0x800 then [(0xC0 + high) as byte, low]
    else if c < 0x1_0000 then [(0xE0 + high / 64) as byte, (0x80 + high % 64) as byte, low]
    else [(0xF0 + high / 64 / 64) as byte, (0x80 + high / 64 % 64) as byte, (0x80 + high % 64) as byte, low]
  }

  predicate StartsWithPair(t: Text) { |t| > 1 && HighSurrogate(t[0]) && LowSurrogate(t[1]) }

  predicate IsSurrogate(u: Unit) { HighSurrogate(u) || LowSurrogate(u) }

  /** The scalar a surrogate pair stands for. */
  function PairScalar(high: Unit, low: Unit): (c: int)
    requires HighSurrogate(high) && LowSurrogate(low)
    ensures 0x1_0000 <= c && IsScalar(c) && Units(c) == [high, low]
  {
    0x1_0000 + (high - 0xD800) * 1024 + (low - 0xDC00)
  }

  /** The first scalar of a text; a lone surrogate counts as the replacement character. */
  function FirstScalar(t: Text): (c: int)
    requires t != []
    ensures IsScalar(c)
  {
    if StartsWithPair(t) then PairScalar(t[0], t[1]) else if IsSurrogate(t[0]) then REPLACEMENT else t[0]
  }

  function Width(t: Text): (n: nat)
    requires t != []
    ensures 1 <= n <= |t|
  {
    if StartsWithPair(t) then 2 else 1
  }

  function Encode(t: Text): Bytes {
    if t == [] then [] else EncodeScalar(FirstScalar(t)) + Encode(t[Width(t)..])
  }

  /** No surrogate stands alone. */
  predicate NoLoneSurrogate(t: Text) {
    t == [] || ((StartsWithPair(t) || !IsSurrogate(t[0])) && NoLoneSurrogate(t[Width(t)..]))
  }

  // ---------- Reading back what was written ----------

  /** A written scalar is read as itself. */
  lemma EncodedScalarIs(c: int)
    requires IsScalar(c)
    ensures var e := EncodeScalar(c); StartsWell(e) && Taken(e) == |e| && ScalarAt(e) == c
  {
  }

  /** What follows a well-formed sequence does not matter to how it is read. */
  lemma FollowedBy(e: Bytes, rest: Bytes)
    requires StartsWell(e) && Taken(e) == |e|
    ensures var s := e + rest;
      StartsWell(s) && Taken(s) == |e| && ScalarAt(s) == ScalarAt(e) && s[..|e|] == e && s[|e|..] == rest
  {
    var s := e + rest;
    assert s[0] == e[0] && (|e| > 1 ==> s[1] == e[1]) && (|e| > 2 ==> s[2] == e[2]) && (|e| > 3 ==> s[3] == e[3]);
  }

  lemma EncodedScalarReads(c: int, rest: Bytes)
    requires IsScalar(c)
    ensures var s := EncodeScalar(c) + rest;
      StartsWell(s) && Taken(s) == |EncodeScalar(c)| && ScalarAt(s) == c && s[Taken(s)..] == rest
  {
    hide EncodeScalar, StartsWell, ScalarAt, Taken;
    EncodedScalarIs(c);
    FollowedBy(EncodeScalar(c), rest);
  }

  /** Whatever is written is well formed. */
  lemma {:induction false} EncodeIsValid(t: Text)
    ensures ValidUtf8(Encode(t))
  {
    if t != [] {
      var rest := t[Width(t)..];
      EncodeIsValid(rest);
      EncodedScalarReads(FirstScalar(t), Encode(rest));
    }
  }

  /** Text without lone surrogates reads back. */
  lemma {:induction false} EncodeReads(t: Text)
    requires NoLoneSurrogate(t)
    ensures Decode(Encode(t)) == t
  {
    if t != [] {
      var rest := t[Width(t)..];
      EncodeReads(rest);
      EncodedScalarReads(FirstScalar(t), Encode(rest));
      assert t == Units(FirstScalar(t)) + rest;
    }
  }

  lemma Digits(high: int, low: int)
    requires 0 <= low < 64
    ensures (high * 64 + low) / 64 == high && (high * 64 + low) % 64 == low
  {
  }

  /** A well-formed sequence is what its scalar is written as. */
  lemma ScalarEncodes(s: Bytes)
    requires StartsWell(s)
    ensures EncodeScalar(ScalarAt(s)) == s[..Taken(s)]
  {
    match Taken(s) {
      case 1 =>
      case 2 => Digits(s[0] as int - 0xC0, s[1] as int - 0x80);
      case 3 => ThreeBytes(s);
      case _ => FourBytes(s);
    }
  }

  lemma ThreeBytes(s: Bytes)
    requires StartsWell(s) && Taken(s) == 3
    ensures EncodeScalar(ScalarAt(s)) == s[..3]
  {
    var high := (s[0] as int - 0xE0) * 64 + (s[1] as int - 0x80);
    Digits(s[0] as int - 0xE0, s[1] as int - 0x80);
    Digits(high, s[2] as int - 0x80);
    assert 0x20 <= high < 0x400 && ScalarAt(s) / 64 == high;
  }

  lemma FourBytes(s: Bytes)
    requires StartsWell(s) && Taken(s) == 4
    ensures EncodeScalar(ScalarAt(s)) == s[..4]
  {
    var top := (s[0] as int - 0xF0) * 64 + (s[1] as int - 0x80);
    var high := top * 64 + (s[2] as int - 0x80);
    Digits(s[0] as int - 0xF0, s[1] as int - 0x80);
    Digits(top, s[2] as int - 0x80);
    Digits(high, s[3] as int - 0x80);
    assert 0x10 <= top < 0x110 && ScalarAt(s) / 64 == high;
  }

  /** Writing the units of a scalar first writes that scalar. */
  lemma UnitsEncode(c: int, t: Text)
    requires IsScalar(c)
    ensures Encode(Units(c) + t) == EncodeScalar(c) + Encode(t)
  {
    var u := Units(c) + t;
    assert u[|Units(c)|..] == t;
    assert FirstScalar(u) == c && Width(u) == |Units(c)|;
  }

  lemma NothingEncodes()
    ensures Encode([]) == []
  {
  }

  lemma {:induction false} ValidRoundTrips(s: Bytes)
    requires ValidUtf8(s)
    ensures Encode(Decode(s)) == s
  {
    hide Encode, EncodeScalar, ScalarAt, StartsWell, Taken, Units;
    NothingEncodes();
    if s != [] {
      var rest := s[Taken(s)..];
      ValidRoundTrips(rest);
      UnitsEncode(ScalarAt(s), Decode(rest));
      ScalarEncodes(s);
      assert s == s[..Taken(s)] + rest;
    }
  }

  /** Bytes survive being read as text and written back exactly when they are valid UTF-8. */
  lemma RoundTripsExactly(s: Bytes)
    ensures Encode(Decode(s)) == s <==> ValidUtf8(s)
  {
    EncodeIsValid(Decode(s));
    if ValidUtf8(s) {
      ValidRoundTrips(s);
    }
  }

  /** A byte that starts no sequence comes back as the three bytes of the replacement character. */
  lemma LoneByteIsReplaced()
    ensures !ValidUtf8([0xFF]) && Encode(Decode([0xFF])) == [0xEF, 0xBF, 0xBD]
  {
    var s: Bytes := [0xFF];
    assert s[1..] == [] && Decode([]) == [];
    UnitsEncode(REPLACEMENT, []);
    assert Decode(s) == Units(REPLACEMENT) + [];
    assert EncodeScalar(REPLACEMENT) == [0xEF, 0xBF, 0xBD];
  }

  // ---------- Concatenation ----------

  /** What follows text without lone surrogates does not change how the text starts. */
  lemma PairedStart(a: Text, b: Text)
    requires a != [] && NoLoneSurrogate(a)
    ensures Width(a + b) == Width(a) && FirstScalar(a + b) == FirstScalar(a)
    ensures (a + b)[Width(a)..] == a[Width(a)..] + b
    ensures StartsWithPair(a + b) || !IsSurrogate((a + b)[0])
  {
  }

  lemma {:induction false} PairedConcat(a: Text, b: Text)
    requires NoLoneSurrogate(a)
    ensures Encode(a + b) == Encode(a) + Encode(b)
    ensures NoLoneSurrogate(b) ==> NoLoneSurrogate(a + b)
  {
    hide FirstScalar, Width, EncodeScalar, StartsWithPair, IsSurrogate;
    if a == [] {
      assert a + b == b;
    } else {
      PairedStart(a, b);
      PairedConcat(a[Width(a)..], b);
    }
  }

  /** A unit is written as at most three bytes, an ASCII one as one. */
  lemma {:induction false} SizeBound(t: Text)
    ensures |Encode(t)| <= 3 * |t|
    ensures (forall k | 0 <= k < |t| :: t[k] < 0x80) ==> |Encode(t)| == |t|
  {
    if t != [] {
      var rest := t[Width(t)..];
      SizeBound(rest);
      assert forall k | 0 <= k < |rest| :: rest[k] == t[k + Width(t)];
    }
  }
}
