/**
 Canonical text as bytes: it never holds a lone surrogate, so it reads back from its file,
 and its size is bounded by the lengths of the strings and numbers in the value.
 */
module CanonicalText {
  import opened Basics
  import opened Utf8
  import opened CanonicalJson
  import opened CanonicalJsonTheorems

  predicate Ascii(t: Text) { forall k | 0 <= k < |t| :: t[k] < 0x80 }

  lemma {:induction false} AsciiIsPaired(t: Text)
    requires Ascii(t)
    ensures NoLoneSurrogate(t) && |Encode(t)| == |t|
  {
    SizeBound(t);
    if t != [] {
      assert !IsSurrogate(t[0]) && t[Width(t)..] == t[1..];
      assert forall k | 0 <= k < |t[1..]| :: t[1..][k] == t[k + 1];
      AsciiIsPaired(t[1..]);
    }
  }

  // ---------- Integers ----------

  /** How a non-negative safe integer is printed. */
  function Decimal(n: nat): (token: Text)
    ensures ValidNumber(token)
  {
    if n < 10 then [48 + n] else Decimal(n / 10) + [48 + n % 10]
  }

  predicate AllDigits(token: Text) { token != [] && forall k | 0 <= k < |token| :: 48 <= token[k] <= 57 }

  function DigitsValue(token: Text): nat
    requires forall k | 0 <= k < |token| :: 48 <= token[k] <= 57
  {
    if token == [] then 0 else DigitsValue(token[..|token| - 1]) * 10 + (token[|token| - 1] - 48)
  }

  /** The non-negative integer a token denotes. */
  function IntegerOf(token: Text): Option<nat> {
    if AllDigits(token) then Some(DigitsValue(token)) else None
  }

  lemma {:induction false} DecimalDenotes(n: nat)
    ensures IntegerOf(Decimal(n)) == Some(n)
    ensures forall digits: nat | n < Power(digits) && digits > 0 :: |Decimal(n)| <= digits
  {
    if n < 10 {
      assert Decimal(n)[..0] == [];
    } else {
      DecimalDenotes(n / 10);
      var rest, all := Decimal(n / 10), Decimal(n);
      assert all == rest + [48 + n % 10] && all[..|all| - 1] == rest;
      assert AllDigits(rest) && AllDigits(all);
      assert DigitsValue(all) == DigitsValue(rest) * 10 + n % 10;
      forall digits: nat | n < Power(digits) && digits > 0 ensures |Decimal(n)| <= digits {
        assert n / 10 < Power(digits - 1);
        assert digits > 1;
      }
    }
  }

  function Power(digits: nat): nat { if digits == 0 then 1 else 10 * Power(digits - 1) }

  // ---------- Strings ----------

  lemma EscapeUnitText(u: Unit)
    ensures NoLoneSurrogate(EscapeUnit(u)) && |Encode(EscapeUnit(u))| <= 6
  {
    var e := EscapeUnit(u);
    if e == [u] {
      assert NoLoneSurrogate(e[1..]);
      SizeBound(e);
    } else {
      assert Ascii(e);
      AsciiIsPaired(e);
    }
  }

  lemma PairText(t: Text)
    requires |t| == 2 && StartsWithPair(t)
    ensures NoLoneSurrogate(t) && |Encode(t)| <= 6
  {
    assert t[2..] == [];
    SizeBound(t);
  }

  /** Escaped text has no lone surrogate, and at most six bytes for each unit. */
  lemma {:induction false} EscapeText(s: Text)
    ensures NoLoneSurrogate(Escape(s)) && |Encode(Escape(s))| <= 6 * |s|
  {
    hide EscapeUnit, NoLoneSurrogate, Encode;
    if s == [] {
      AsciiIsPaired([]);
    } else if StartsWithPair(s) {
      EscapeText(s[2..]);
      PairText(s[..2]);
      PairedConcat(s[..2], Escape(s[2..]));
    } else {
      EscapeText(s[1..]);
      EscapeUnitText(s[0]);
      PairedConcat(EscapeUnit(s[0]), Escape(s[1..]));
    }
  }

  lemma Between(first: Text, middle: Text, last: Text)
    requires Ascii(first) && NoLoneSurrogate(middle) && Ascii(last)
    ensures NoLoneSurrogate(first + middle + last)
      && |Encode(first + middle + last)| == |first| + |Encode(middle)| + |last|
  {
    hide NoLoneSurrogate, Encode, Ascii;
    AsciiIsPaired(first);
    AsciiIsPaired(last);
    PairedConcat(first, middle);
    PairedConcat(first + middle, last);
  }

  lemma StringText(s: Text)
    ensures NoLoneSurrogate(PrintString(s)) && |Encode(PrintString(s))| <= 6 * |s| + 2
  {
    hide Escape;
    EscapeText(s);
    Between([QUOTE], Escape(s), [QUOTE]);
  }

  // ---------- Values ----------

  predicate AllPaired(parts: seq<Text>) { forall k | 0 <= k < |parts| :: NoLoneSurrogate(parts[k]) }

  /** The bytes of the parts, each with a separator. */
  function BytesOf(parts: seq<Text>): nat {
    if parts == [] then 0 else |Encode(parts[0])| + 1 + BytesOf(parts[1..])
  }

  lemma {:induction false} JoinText(parts: seq<Text>)
    requires AllPaired(parts)
    ensures NoLoneSurrogate(Join(parts)) && |Encode(Join(parts))| <= BytesOf(parts)
  {
    hide NoLoneSurrogate, Encode;
    if parts == [] {
      AsciiIsPaired([]);
    } else if |parts| > 1 {
      var rest := parts[1..];
      assert AllPaired(rest) by { assert forall k | 0 <= k < |rest| :: rest[k] == parts[k + 1]; }
      JoinText(rest);
      AsciiIsPaired([COMMA]);
      PairedConcat(parts[0], [COMMA]);
      PairedConcat(parts[0] + [COMMA], Join(rest));
    }
  }

  /** A bound on the bytes of a value's text. */
  function ByteBound(v: Json): nat
    decreases v, 1
  {
    match v
    case JNull => 4
    case JBool(_) => 5
    case JNumber(token) => |token|
    case JString(s) => 6 * |s| + 2
    case JArray(items) => 2 + ItemsBound(items)
    case JObject(members) => 2 + MembersBound(members)
  }

  function ItemsBound(items: seq<Json>): nat
    decreases items, 0
  {
    if items == [] then 0 else ByteBound(items[0]) + 1 + ItemsBound(items[1..])
  }

  function MembersBound(members: seq<Member>): nat
    decreases members, 0
  {
    if members == [] then 0
    else
      (if members[0].value.Some? then 6 * |members[0].key| + ByteBound(members[0].value.value) + 4 else 0) +
      MembersBound(members[1..])
  }

  predicate ItemsPaired(entries: seq<Entry<Text>>) { forall k | 0 <= k < |entries| :: NoLoneSurrogate(entries[k].item) }

  function EntryBytes(entries: seq<Entry<Text>>): nat {
    if entries == [] then 0 else 6 * |entries[0].key| + |Encode(entries[0].item)| + 4 + EntryBytes(entries[1..])
  }

  lemma {:induction false} InsertBytes(e: Entry<Text>, sorted: seq<Entry<Text>>)
    requires NoLoneSurrogate(e.item) && ItemsPaired(sorted)
    ensures ItemsPaired(Insert(e, sorted)) && EntryBytes(Insert(e, sorted)) == EntryBytes([e] + sorted)
  {
    hide NoLoneSurrogate, Encode, LexLess;
    assert ([e] + sorted)[1..] == sorted;
    if sorted != [] && !LexLess(e.key, sorted[0].key) {
      var rest := sorted[1..];
      assert ItemsPaired(rest) by { assert forall k | 0 <= k < |rest| :: rest[k] == sorted[k + 1]; }
      InsertBytes(e, rest);
      assert ([e] + rest)[1..] == rest;
      assert Insert(e, sorted)[1..] == Insert(e, rest);
    }
  }

  /** Sorting keys changes no size. */
  lemma {:induction false} SortBytes(entries: seq<Entry<Text>>)
    requires ItemsPaired(entries)
    ensures ItemsPaired(SortByKey(entries)) && EntryBytes(SortByKey(entries)) == EntryBytes(entries)
  {
    hide NoLoneSurrogate, Encode;
    if entries != [] {
      var rest := entries[1..];
      assert ItemsPaired(rest) by { assert forall k | 0 <= k < |rest| :: rest[k] == entries[k + 1]; }
      SortBytes(rest);
      InsertBytes(entries[0], SortByKey(rest));
      assert ([entries[0]] + SortByKey(rest))[1..] == SortByKey(rest);
    }
  }

  lemma {:induction false} MemberTextsText(entries: seq<Entry<Text>>)
    requires ItemsPaired(entries)
    ensures AllPaired(MemberTexts(entries)) && BytesOf(MemberTexts(entries)) <= EntryBytes(entries)
  {
    hide NoLoneSurrogate, Encode, PrintString;
    if entries != [] {
      var first, rest := entries[0], entries[1..];
      assert ItemsPaired(rest) by { assert forall k | 0 <= k < |rest| :: rest[k] == entries[k + 1]; }
      MemberTextsText(rest);
      StringText(first.key);
      AsciiIsPaired([COLON]);
      PairedConcat(PrintString(first.key), [COLON]);
      PairedConcat(PrintString(first.key) + [COLON], first.item);
      assert MemberTexts(entries)[1..] == MemberTexts(rest);
    }
  }

  lemma TokenIsAscii(token: Text)
    requires ValidNumber(token)
    ensures Ascii(token)
  {
  }

  /** Canonical text has no lone surrogate and is no longer than the bound, in bytes. */
  lemma {:induction false} PrintText(v: Json)
    requires WellFormed(v)
    ensures NoLoneSurrogate(Print(v)) && |Encode(Print(v))| <= ByteBound(v)
    decreases v, 1
  {
    hide NoLoneSurrogate, Encode, Join, PrintString, SortByKey, MemberTexts;
    match v {
      case JString(s) => StringText(s);
      case JNumber(token) => TokenIsAscii(token); AsciiIsPaired(token);
      case JArray(items) =>
        ItemsText(items);
        JoinText(PrintItems(items));
        Between([LBRACKET], Join(PrintItems(items)), [RBRACKET]);
      case JObject(members) =>
        MembersText(members);
        var es := SortByKey(PrintMembers(members));
        SortBytes(PrintMembers(members));
        MemberTextsText(es);
        JoinText(MemberTexts(es));
        Between([LBRACE], Join(MemberTexts(es)), [RBRACE]);
      case _ =>
        assert Ascii(Print(v));
        AsciiIsPaired(Print(v));
    }
  }

  lemma {:induction false} ItemsText(items: seq<Json>)
    requires forall k | 0 <= k < |items| :: WellFormed(items[k])
    ensures AllPaired(PrintItems(items)) && BytesOf(PrintItems(items)) <= ItemsBound(items)
    decreases items, 0
  {
    hide NoLoneSurrogate, Encode, Print;
    if items != [] {
      PrintText(items[0]);
      ItemsText(items[1..]);
      assert PrintItems(items)[1..] == PrintItems(items[1..]);
    }
  }

  lemma {:induction false} MembersText(members: seq<Member>)
    requires forall k | 0 <= k < |members| && members[k].value.Some? :: WellFormed(members[k].value.value)
    ensures ItemsPaired(PrintMembers(members)) && EntryBytes(PrintMembers(members)) <= MembersBound(members)
    decreases members, 0
  {
    hide NoLoneSurrogate, Encode, Print;
    if members != [] {
      var rest := PrintMembers(members[1..]);
      MembersText(members[1..]);
      if members[0].value.Some? {
        PrintText(members[0].value.value);
        var first := Entry(members[0].key, Print(members[0].value.value));
        assert PrintMembers(members) == [first] + rest && PrintMembers(members)[1..] == rest;
      } else {
        assert PrintMembers(members) == rest;
      }
    }
  }

  /** Canonical text survives being written to a file and read again. */
  lemma PrintedBytesRead(v: Json, rest: Text)
    requires WellFormed(v) && Ascii(rest)
    ensures Decode(Encode(Print(v) + rest)) == Print(v) + rest
    ensures |Encode(Print(v) + rest)| <= ByteBound(v) + |rest|
  {
    hide NoLoneSurrogate, Encode, Decode, Print, Ascii;
    PrintText(v);
    AsciiIsPaired(rest);
    PairedConcat(Print(v), rest);
    EncodeReads(Print(v) + rest);
  }
}
