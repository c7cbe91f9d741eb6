/**
 A second account of canonical text: every escape spelled out, members in ascending order of
 their keys' code units. A text is printed for a value exactly when it stands for it in this sense.
 */
module CanonicalForm {
  import opened Basics
  import opened Utf8
  import opened CanonicalJson
  import opened CanonicalJsonTheorems

  function Flat(parts: seq<Text>): Text { if parts == [] then [] else parts[0] + Flat(parts[1..]) }

  // ---------- Strings ----------

  /** The two-character escapes of section 7 of RFC 8259 that are written. */
  const SHORT: map<int, string> := map[
    34 := "\\\"", 92 := "\\\\", 8 := "\\b", 9 := "\\t", 10 := "\\n", 12 := "\\f", 13 := "\\r"]

  /** The four hexadecimal digits of a unit. */
  function Hex(u: Unit): string {
    [HexChar(u / 0x1000), HexChar(u / 0x100 % 16), HexChar(u / 0x10 % 16), HexChar(u % 16)]
  }

  function HexChar(d: int): char
    requires 0 <= d < 16
  {
    "0123456789abcdef"[d]
  }

  /** The unit is half of a surrogate pair. */
  predicate InPair(s: Text, k: nat)
    requires k < |s|
  {
    || (0xD800 <= s[k] <= 0xDBFF && k + 1 < |s| && 0xDC00 <= s[k + 1] <= 0xDFFF)
    || (0xDC00 <= s[k] <= 0xDFFF && k > 0 && 0xD800 <= s[k - 1] <= 0xDBFF)
  }

  /** How one unit of a string is written. */
  function Spelled(s: Text, k: nat): Text
    requires k < |s|
  {
    var u := s[k];
    if u in SHORT then FromAscii(SHORT[u])
    else if u < 0x20 || (0xD800 <= u <= 0xDFFF && !InPair(s, k)) then FromAscii("\\u" + Hex(u))
    else [u]
  }

  function Spelling(s: Text): (parts: seq<Text>)
    ensures |parts| == |s| && forall k | 0 <= k < |s| :: parts[k] == Spelled(s, k)
  {
    seq(|s|, k requires 0 <= k < |s| => Spelled(s, k))
  }

  function Quoted(s: Text): Text { FromAscii("\"") + Flat(Spelling(s)) + FromAscii("\"") }

  lemma HexDigit(d: int)
    requires 0 <= d < 16
    ensures HexChar(d) as int == HexUnit(d)
  {
    if d < 8 {
      assert "01234567"[d] == HexChar(d);
    }
  }

  lemma HexDigits(u: Unit)
    ensures Hex4(u) == FromAscii(Hex(u))
  {
    hide HexUnit, HexChar;
    assert u / 16 / 16 / 16 == u / 0x1000 && u / 16 / 16 == u / 0x100;
    HexDigit(u / 0x1000);
    HexDigit(u / 0x100 % 16);
    HexDigit(u / 0x10 % 16);
    HexDigit(u % 16);
  }

  lemma ShortExactly(u: Unit)
    ensures u in SHORT ==> EscapeUnit(u) == FromAscii(SHORT[u])
    ensures u in SHORT <==> u == QUOTE || u == BACKSLASH || u == 8 || u == 9 || u == 10 || u == 12 || u == 13
  {
    hide Hex4;
  }

  lemma LongExactly(u: Unit)
    requires u !in SHORT
    ensures EscapeUnit(u) == if u < 32 || HighSurrogate(u) || LowSurrogate(u) then [BACKSLASH, 117] + Hex4(u) else [u]
  {
    ShortExactly(u);
    hide SHORT, Hex4;
  }

  lemma UnitIsSpelled(s: Text, k: nat)
    requires k < |s| && !InPair(s, k)
    ensures EscapeUnit(s[k]) == Spelled(s, k)
  {
    hide Hex, Hex4, EscapeUnit, SHORT, InPair;
    var u := s[k];
    ShortExactly(u);
    if u !in SHORT {
      LongExactly(u);
      HexDigits(u);
      assert FromAscii("\\u" + Hex(u)) == [BACKSLASH, 117] + FromAscii(Hex(u));
    }
  }

  lemma PairIsSpelled(s: Text, k: nat)
    requires k < |s| && InPair(s, k)
    ensures Spelled(s, k) == [s[k]]
  {
  }

  lemma {:induction false} EscapedFrom(s: Text, k: nat)
    requires k <= |s| && (0 < k < |s| && LowSurrogate(s[k]) ==> !HighSurrogate(s[k - 1]))
    ensures Escape(s[k..]) == Flat(Spelling(s)[k..])
    decreases |s| - k
  {
    hide EscapeUnit, Spelled;
    var rest := s[k..];
    if k < |s| {
      if StartsWithPair(rest) {
        EscapedFrom(s, k + 2);
        PairIsSpelled(s, k);
        PairIsSpelled(s, k + 1);
        assert rest[2..] == s[k + 2..] && rest[..2] == [s[k]] + [s[k + 1]];
        assert Spelling(s)[k..][1..] == Spelling(s)[k + 1..] && Spelling(s)[k + 1..][1..] == Spelling(s)[k + 2..];
      } else {
        EscapedFrom(s, k + 1);
        UnitIsSpelled(s, k);
        assert rest[1..] == s[k + 1..] && Spelling(s)[k..][1..] == Spelling(s)[k + 1..];
      }
    }
  }

  lemma QuotedExactly(s: Text)
    ensures PrintString(s) == Quoted(s)
  {
    hide Escape, Flat, Spelling;
    EscapedFrom(s, 0);
    assert s[0..] == s && Spelling(s)[0..] == Spelling(s);
    assert FromAscii("\"") == [QUOTE];
  }

  // ---------- The order of keys ----------

  /** One text is a proper start of the other, or smaller where they first differ. */
  ghost predicate IsBefore(a: Text, b: Text) {
    a < b || exists k :: 0 <= k < |a| && k < |b| && a[..k] == b[..k] && a[k] < b[k]
  }

  lemma {:induction false} LessIsBefore(a: Text, b: Text)
    requires LexLess(a, b)
    ensures IsBefore(a, b)
  {
    if a != [] {
      assert a == [a[0]] + a[1..] && b == [b[0]] + b[1..];
      if a[0] < b[0] {
        assert a[..0] == b[..0];
      } else {
        LessIsBefore(a[1..], b[1..]);
        if !(a[1..] < b[1..]) {
          var k :| 0 <= k < |a[1..]| && k < |b[1..]| && a[1..][..k] == b[1..][..k] && a[1..][k] < b[1..][k];
          assert a[..k + 1] == [a[0]] + a[1..][..k] && b[..k + 1] == [b[0]] + b[1..][..k];
        }
      }
    }
  }

  lemma {:induction false} BeforeIsLess(a: Text, b: Text)
    requires IsBefore(a, b)
    ensures LexLess(a, b)
  {
    if a != [] {
      var x, y := a[1..], b[1..];
      if !(a < b) {
        var k :| 0 <= k < |a| && k < |b| && a[..k] == b[..k] && a[k] < b[k];
        if k > 0 {
          assert a[..k][0] == a[0] && b[..k][0] == b[0];
          assert x[..k - 1] == a[..k][1..] && y[..k - 1] == b[..k][1..];
          assert x[k - 1] < y[k - 1];
          BeforeIsLess(x, y);
        }
      } else {
        assert a[0] == b[0] && x < y;
        BeforeIsLess(x, y);
      }
    }
  }

  lemma OrderExactly(a: Text, b: Text)
    ensures LexLess(a, b) <==> IsBefore(a, b)
  {
    hide LexLess, IsBefore;
    if LexLess(a, b) {
      LessIsBefore(a, b);
    }
    if IsBefore(a, b) {
      BeforeIsLess(a, b);
    }
  }

  ghost predicate Ascending(keys: seq<Text>) { forall i, j | 0 <= i < j < |keys| :: IsBefore(keys[i], keys[j]) }

  // ---------- Values ----------

  function Separated(parts: seq<Text>): Text {
    if parts == [] then []
    else if |parts| == 1 then parts[0]
    else Separated(parts[..|parts| - 1]) + FromAscii(",") + parts[|parts| - 1]
  }

  function Named(keys: seq<Text>, texts: seq<Text>): (parts: seq<Text>)
    requires |keys| == |texts|
    ensures |parts| == |keys|
    ensures forall k | 0 <= k < |keys| :: parts[k] == Quoted(keys[k]) + FromAscii(":") + texts[k]
  {
    seq(|keys|, k requires 0 <= k < |keys| => Quoted(keys[k]) + FromAscii(":") + texts[k])
  }

  ghost predicate IsDefined(members: seq<Member>, key: Text) {
    exists i | 0 <= i < |members| :: members[i].key == key && members[i].value.Some?
  }

  /** The keys of the defined members, in order. */
  ghost predicate ListsKeys(members: seq<Member>, keys: seq<Text>) {
    && Ascending(keys)
    && (forall i | 0 <= i < |members| && members[i].value.Some? :: members[i].key in keys)
    && (forall k | 0 <= k < |keys| :: IsDefined(members, keys[k]))
  }

  /** The text stands for the value. */
  ghost predicate Stands(v: Json, t: Text)
    decreases v
  {
    match v
    case JNull => t == FromAscii("null")
    case JBool(b) => t == FromAscii(if b then "true" else "false")
    case JNumber(token) => t == token
    case JString(s) => t == Quoted(s)
    case JArray(items) =>
      exists texts: seq<Text> | |texts| == |items| ::
        && t == FromAscii("[") + Separated(texts) + FromAscii("]")
        && forall k | 0 <= k < |items| :: Stands(items[k], texts[k])
    case JObject(members) =>
      exists keys: seq<Text>, texts: seq<Text> | |keys| == |texts| && ListsKeys(members, keys) ::
        && t == FromAscii("{") + Separated(Named(keys, texts)) + FromAscii("}")
        && forall i, k | 0 <= i < |members| && members[i].value.Some? && 0 <= k < |keys| && members[i].key == keys[k] ::
             Stands(members[i].value.value, texts[k])
  }

  // ---------- Printing gives the one text that stands for a value ----------

  lemma {:induction false} SeparatedExactly(parts: seq<Text>)
    ensures Separated(parts) == Join(parts)
  {
    assert FromAscii(",") == [COMMA];
    if |parts| > 1 {
      var front, last := parts[..|parts| - 1], parts[|parts| - 1];
      SeparatedExactly(front);
      JoinAppend(front, last);
      assert parts == front + [last];
    }
  }

  lemma {:induction false} JoinAppend(front: seq<Text>, last: Text)
    requires front != []
    ensures Join(front + [last]) == Join(front) + [COMMA] + last
  {
    if |front| == 1 {
      assert (front + [last])[1..] == [last];
    } else {
      JoinAppend(front[1..], last);
      assert (front + [last])[1..] == front[1..] + [last];
    }
  }

  function Keys(es: seq<Entry<Text>>): (keys: seq<Text>)
    ensures |keys| == |es| && forall k | 0 <= k < |es| :: keys[k] == es[k].key
  {
    seq(|es|, k requires 0 <= k < |es| => es[k].key)
  }

  function Items(es: seq<Entry<Text>>): (texts: seq<Text>)
    ensures |texts| == |es| && forall k | 0 <= k < |es| :: texts[k] == es[k].item
  {
    seq(|es|, k requires 0 <= k < |es| => es[k].item)
  }

  lemma {:induction false} NamedExactly(es: seq<Entry<Text>>)
    ensures Named(Keys(es), Items(es)) == MemberTexts(es)
  {
    hide Quoted, PrintString;
    if es != [] {
      var rest := es[1..];
      NamedExactly(rest);
      QuotedExactly(es[0].key);
      assert FromAscii(":") == [COLON];
      var named := Named(Keys(es), Items(es));
      assert named[0] == MemberTexts(es)[0];
      assert named[1..] == Named(Keys(rest), Items(rest));
      assert named == [named[0]] + named[1..];
    }
  }

  lemma AscendingExactly(es: seq<Entry<Text>>)
    ensures SortedEntries(es) <==> Ascending(Keys(es))
  {
    hide LexLess, IsBefore;
    forall a, b ensures LexLess(a, b) <==> IsBefore(a, b) {
      OrderExactly(a, b);
    }
  }

  /** Under each key stands the printed value of its member. */
  ghost predicate AllPrinted(members: seq<Member>, keys: seq<Text>, texts: seq<Text>)
    requires |keys| == |texts|
  {
    forall i, k | 0 <= i < |members| && members[i].value.Some? && 0 <= k < |keys| && members[i].key == keys[k] ::
      texts[k] == Print(members[i].value.value)
  }

  lemma PrintedEntry(members: seq<Member>, key: Text, text: Text)
    requires DistinctKeys(members)
    ensures Entry(key, text) in PrintMembers(members) <==>
      exists i | 0 <= i < |members| ::
        members[i].key == key && members[i].value.Some? && text == Print(members[i].value.value)
  {
    hide Print, PrintMembers, Lookup;
    PrintedMembers(members, Entry(key, text));
    if i :| 0 <= i < |members| && members[i].key == key {
      LookupAt(members, i);
    }
  }

  /** The sorted entries list the keys, each with its printed value. */
  lemma PrintedLists(members: seq<Member>)
    requires DistinctKeys(members)
    ensures var es := SortByKey(PrintMembers(members));
      ListsKeys(members, Keys(es)) && AllPrinted(members, Keys(es), Items(es))
  {
    hide Print, PrintMembers, SortByKey, Ascending, SortedEntries;
    var printed := PrintMembers(members);
    var es := SortByKey(printed);
    DistinctPrinted(members);
    SortSorts(printed);
    AscendingExactly(es);
    forall k | 0 <= k < |es| ensures IsDefined(members, es[k].key) {
      assert es[k] in es && Entry(es[k].key, es[k].item) in printed;
      PrintedEntry(members, es[k].key, es[k].item);
    }
    forall i | 0 <= i < |members| && members[i].value.Some? ensures members[i].key in Keys(es) {
      var e := Entry(members[i].key, Print(members[i].value.value));
      PrintedEntry(members, e.key, e.item);
      assert e in es;
      var k :| 0 <= k < |es| && es[k] == e;
      assert Keys(es)[k] == e.key;
    }
    forall i, k | 0 <= i < |members| && members[i].value.Some? && 0 <= k < |es| && members[i].key == es[k].key
      ensures es[k].item == Print(members[i].value.value)
    {
      assert es[k] in es && Entry(es[k].key, es[k].item) in printed;
      PrintedEntry(members, es[k].key, es[k].item);
    }
  }

  /** There is only one such list. */
  lemma ListIsPrinted(members: seq<Member>, es: seq<Entry<Text>>)
    requires DistinctKeys(members) && ListsKeys(members, Keys(es)) && AllPrinted(members, Keys(es), Items(es))
    ensures es == SortByKey(PrintMembers(members))
  {
    hide Print, PrintMembers, SortByKey, Ascending, SortedEntries;
    var printed := PrintMembers(members);
    DistinctPrinted(members);
    SortSorts(printed);
    AscendingExactly(es);
    forall e ensures e in es <==> e in printed {
      SameEntry(members, es, e);
    }
    SortedIsUnique(es, SortByKey(printed));
  }

  lemma SameEntry(members: seq<Member>, es: seq<Entry<Text>>, e: Entry<Text>)
    requires DistinctKeys(members) && ListsKeys(members, Keys(es)) && AllPrinted(members, Keys(es), Items(es))
    ensures e in es <==> e in PrintMembers(members)
  {
    hide Print, PrintMembers, Ascending;
    PrintedEntry(members, e.key, e.item);
    assert e == Entry(e.key, e.item);
    if e in es {
      var k :| 0 <= k < |es| && es[k] == e;
      assert IsDefined(members, Keys(es)[k]);
      var i :| 0 <= i < |members| && members[i].key == e.key && members[i].value.Some?;
      assert Items(es)[k] == Print(members[i].value.value);
    }
    if e in PrintMembers(members) {
      var i :| 0 <= i < |members| && members[i].key == e.key && members[i].value.Some?
        && e.item == Print(members[i].value.value);
      var k :| 0 <= k < |es| && Keys(es)[k] == e.key;
      assert Items(es)[k] == e.item && es[k] == e;
    }
  }

  /** A text stands for a value exactly when it is the one that is printed for it. */
  lemma {:induction false} StandsExactly(v: Json, t: Text)
    requires WellFormed(v)
    ensures Stands(v, t) <==> t == Print(v)
    decreases v
  {
    match v {
      case JNull =>
      case JBool(_) =>
      case JNumber(_) =>
      case JString(s) => QuotedExactly(s);
      case JArray(items) =>
        forall k, text | 0 <= k < |items| ensures Stands(items[k], text) <==> text == Print(items[k]) {
          StandsExactly(items[k], text);
        }
        ArrayStands(items, t);
      case JObject(members) =>
        forall i, text | 0 <= i < |members| && members[i].value.Some?
          ensures Stands(members[i].value.value, text) <==> text == Print(members[i].value.value)
        {
          StandsExactly(members[i].value.value, text);
        }
        ObjectStands(members, t);
    }
  }

  lemma ArrayStands(items: seq<Json>, t: Text)
    requires forall k, text | 0 <= k < |items| :: Stands(items[k], text) <==> text == Print(items[k])
    ensures Stands(JArray(items), t) <==> t == Print(JArray(items))
  {
    hide Separated, Join;
    assert FromAscii("[") == [LBRACKET] && FromAscii("]") == [RBRACKET];
    SeparatedExactly(PrintItems(items));
    if Stands(JArray(items), t) {
      var texts: seq<Text> :| |texts| == |items|
        && t == FromAscii("[") + Separated(texts) + FromAscii("]")
        && forall k | 0 <= k < |items| :: Stands(items[k], texts[k]);
      assert texts == PrintItems(items);
    }
    assert forall k | 0 <= k < |items| :: Stands(items[k], PrintItems(items)[k]);
  }

  lemma ObjectStands(members: seq<Member>, t: Text)
    requires DistinctKeys(members)
    requires forall i, text | 0 <= i < |members| && members[i].value.Some? ::
               Stands(members[i].value.value, text) <==> text == Print(members[i].value.value)
    ensures Stands(JObject(members), t) <==> t == Print(JObject(members))
  {
    hide Separated, Named, Print, SortByKey, PrintMembers, ListsKeys, FromAscii;
    if Stands(JObject(members), t) {
      var keys: seq<Text>, texts: seq<Text> :| |keys| == |texts| && ListsKeys(members, keys)
        && t == FromAscii("{") + Separated(Named(keys, texts)) + FromAscii("}")
        && forall i, k | 0 <= i < |members| && members[i].value.Some? && 0 <= k < |keys| && members[i].key == keys[k] ::
             Stands(members[i].value.value, texts[k]);
      assert AllPrinted(members, keys, texts);
      StandingIsPrinted(members, keys, texts);
    }
    var es := SortByKey(PrintMembers(members));
    PrintedLists(members);
    StandingIsPrinted(members, Keys(es), Items(es));
  }

  lemma StandingIsPrinted(members: seq<Member>, keys: seq<Text>, texts: seq<Text>)
    requires DistinctKeys(members) && |keys| == |texts| && ListsKeys(members, keys) && AllPrinted(members, keys, texts)
    ensures FromAscii("{") + Separated(Named(keys, texts)) + FromAscii("}") == Print(JObject(members))
  {
    hide Separated, Join, Named, Print, SortByKey, PrintMembers, MemberTexts, ListsKeys, AllPrinted, FromAscii;
    var es := seq(|keys|, k requires 0 <= k < |keys| => Entry(keys[k], texts[k]));
    assert Keys(es) == keys && Items(es) == texts;
    ListIsPrinted(members, es);
    PrintsObject(members);
    NamedExactly(es);
    SeparatedExactly(MemberTexts(es));
  }

  lemma PrintsObject(members: seq<Member>)
    ensures Print(JObject(members)) ==
      FromAscii("{") + Join(MemberTexts(SortByKey(PrintMembers(members)))) + FromAscii("}")
  {
    assert FromAscii("{") == [LBRACE] && FromAscii("}") == [RBRACE];
  }

  // ---------- Numbers ----------

  lemma NumberUnitExactly(u: Unit)
    ensures NumberUnit(u) <==> u in FromAscii("0123456789.+-eE")
  {
    var all := FromAscii("0123456789.+-eE");
    assert all == [48, 49, 50, 51, 52, 53, 54, 55, 56, 57, 46, 43, 45, 101, 69];
  }

  // ---------- Reading strings ----------

  /** The lower-case form of a hexadecimal digit. */
  function LowerCase(c: char): char { if 'A' <= c <= 'F' then c - 'A' + 'a' else c }

  /** The four characters are the digits of a unit, in either case. */
  ghost predicate SpellsHex(e: Text, u: Unit) {
    |e| == 4 && forall k | 0 <= k < 4 :: e[k] < 0x80 && LowerCase(e[k] as char) == Hex(u)[k]
  }

  /** What one unit may be written as (section 7 of RFC 8259). */
  ghost predicate Spells(e: Text, u: Unit) {
    || (e == [u] && u >= 0x20 && u != 34 && u != 92)
    || (u == 34 && e == FromAscii("\\\"")) || (u == 92 && e == FromAscii("\\\\")) || (u == 47 && e == FromAscii("\\/"))
    || (u == 8 && e == FromAscii("\\b")) || (u == 12 && e == FromAscii("\\f")) || (u == 10 && e == FromAscii("\\n"))
    || (u == 13 && e == FromAscii("\\r")) || (u == 9 && e == FromAscii("\\t"))
    || (|e| == 6 && e[..2] == FromAscii("\\u") && SpellsHex(e[2..], u))
  }

  /** A spelled string, its closing quote and the rest. */
  ghost predicate SpellsString(t: Text, s: Text, rest: Text) {
    exists parts: seq<Text> | |parts| == |s| ::
      t == Flat(parts) + FromAscii("\"") + rest && forall k | 0 <= k < |s| :: Spells(parts[k], s[k])
  }

  lemma FromHexExactly(c: Unit, d: int)
    requires 0 <= d < 16
    ensures FromHex(c) == Some(d) <==> c < 0x80 && LowerCase(c as char) == HexChar(d)
  {
    HexDigit(d);
  }

  lemma LastPlace(u: int, q: int, w: int)
    requires 0 <= w < 16
    ensures u == q * 16 + w <==> q == u / 16 && w == u % 16
  {
  }

  lemma PlaceValues(u: Unit, x: int, y: int, z: int, w: int)
    requires 0 <= x < 16 && 0 <= y < 16 && 0 <= z < 16 && 0 <= w < 16
    ensures u == x * 4096 + y * 256 + z * 16 + w <==>
      x == u / 0x1000 && y == u / 0x100 % 16 && z == u / 0x10 % 16 && w == u % 16
  {
    var one, two := u / 0x10, u / 0x100;
    assert one / 16 == two && two / 16 == u / 0x1000;
    LastPlace(u, (x * 16 + y) * 16 + z, w);
    LastPlace(one, x * 16 + y, z);
    LastPlace(two, x, y);
  }

  lemma HexExactly(t: Text, u: Unit)
    requires |t| >= 4
    ensures ReadHex4(t) == Some(u) <==> SpellsHex(t[..4], u)
  {
    hide FromHex, LowerCase, HexChar;
    FromHexExactly(t[0], u / 0x1000);
    FromHexExactly(t[1], u / 0x100 % 16);
    FromHexExactly(t[2], u / 0x10 % 16);
    FromHexExactly(t[3], u % 16);
    match (FromHex(t[0]), FromHex(t[1]), FromHex(t[2]), FromHex(t[3])) {
      case (Some(x), Some(y), Some(z), Some(w)) => PlaceValues(u, x, y, z, w);
      case _ =>
    }
  }

  lemma ReadsSpelled(e: Text, u: Unit, t: Text)
    requires Spells(e, u)
    ensures ReadString(e + t) == Prepend(u, ReadString(t))
  {
    hide SpellsHex, ReadHex4, Prepend;
    if |e| == 6 {
      assert (e + t)[2..][..4] == e[2..] && (e + t)[6..] == t;
      HexExactly((e + t)[2..], u);
    } else if |e| == 2 {
      assert (e + t)[2..] == t;
    } else {
      assert (e + t)[1..] == t;
    }
  }

  /** Whatever is read as a string starts with a spelling of its first unit. */
  lemma ReadIsSpelled(t: Text, s: Text, rest: Text) returns (e: Text)
    requires ReadString(t) == Some((s, rest)) && s != []
    ensures e <= t && Spells(e, s[0]) && ReadString(t[|e|..]) == Some((s[1..], rest))
  {
    hide SpellsHex, ReadHex4;
    if t[0] != BACKSLASH {
      e := t[..1];
    } else if |t| > 1 && ShortEscape(t[1]).Some? {
      e := t[..2];
    } else {
      e := t[..6];
      HexExactly(t[2..], s[0]);
      assert t[2..][..4] == e[2..];
    }
  }

  lemma {:induction false} SpelledReads(parts: seq<Text>, s: Text, rest: Text)
    requires |parts| == |s| && forall k | 0 <= k < |s| :: Spells(parts[k], s[k])
    ensures ReadString(Flat(parts) + FromAscii("\"") + rest) == Some((s, rest))
  {
    hide Spells, ReadString;
    var quoted := FromAscii("\"") + rest;
    assert Flat(parts) + FromAscii("\"") + rest == Flat(parts) + quoted;
    if s == [] {
      ReadClosingQuote(rest);
      assert Flat(parts) + quoted == Printed([], rest);
    } else {
      SpelledReads(parts[1..], s[1..], rest);
      ReadsSpelled(parts[0], s[0], Flat(parts[1..]) + quoted);
      assert Flat(parts) + quoted == parts[0] + (Flat(parts[1..]) + quoted);
      assert Flat(parts[1..]) + FromAscii("\"") + rest == Flat(parts[1..]) + quoted;
      PrependRead(s, rest);
    }
  }

  lemma {:induction false} ReadSpells(t: Text, s: Text, rest: Text) returns (parts: seq<Text>)
    requires ReadString(t) == Some((s, rest))
    ensures |parts| == |s| && forall k | 0 <= k < |s| :: Spells(parts[k], s[k])
    ensures t == Flat(parts) + FromAscii("\"") + rest
    decreases |s|
  {
    hide Spells;
    if s == [] {
      parts := [];
      EmptyRead(t, rest);
    } else {
      var e := ReadIsSpelled(t, s, rest);
      hide ReadString;
      var tail := ReadSpells(t[|e|..], s[1..], rest);
      parts := [e] + tail;
      assert parts[1..] == tail;
      assert t == e + t[|e|..];
    }
  }

  lemma EmptyRead(t: Text, rest: Text)
    requires ReadString(t) == Some(([], rest))
    ensures t == FromAscii("\"") + rest
  {
    hide ReadHex4, ShortEscape;
    assert t == [t[0]] + t[1..];
  }

  /** Strings are read exactly as they may be spelled. */
  lemma ReadStringExactly(t: Text, s: Text, rest: Text)
    ensures ReadString(t) == Some((s, rest)) <==> SpellsString(t, s, rest)
  {
    hide Spells, ReadString;
    if ReadString(t) == Some((s, rest)) {
      var parts := ReadSpells(t, s, rest);
    }
    if SpellsString(t, s, rest) {
      var parts: seq<Text> :| |parts| == |s|
        && t == Flat(parts) + FromAscii("\"") + rest && forall k | 0 <= k < |s| :: Spells(parts[k], s[k]);
      SpelledReads(parts, s, rest);
    }
  }
}
