/** Canonical text is a canonical form, and reading it back gives the canonical value. */
module CanonicalJsonTheorems {
  import opened Basics
  import opened Utf8
  import opened CanonicalJson

  // ---------- Strings ----------

  lemma FromHexUnit(d: int)
    requires 0 <= d < 16
    ensures FromHex(HexUnit(d)) == Some(d)
  {
  }

  lemma ReadPrintedHex(u: Unit, t: Text)
    ensures ReadHex4(Hex4(u) + t) == Some(u)
  {
    hide FromHex, HexUnit;
    var x, y, z := u / 16, u / 16 / 16, u / 16 / 16 / 16;
    FromHexUnit(z);
    FromHexUnit(y % 16);
    FromHexUnit(x % 16);
    FromHexUnit(u % 16);
    var text := Hex4(u) + t;
    assert text[0] == HexUnit(z) && text[1] == HexUnit(y % 16) && text[2] == HexUnit(x % 16)
      && text[3] == HexUnit(u % 16);
    assert u == z * 4096 + y % 16 * 256 + x % 16 * 16 + u % 16;
  }

  lemma ReadEscapedUnit(u: Unit, t: Text)
    ensures ReadString(EscapeUnit(u) + t) == Prepend(u, ReadString(t))
  {
    var e := EscapeUnit(u) + t;
    if |EscapeUnit(u)| == 6 {
      ReadPrintedHex(u, t);
      assert e[2..] == Hex4(u) + t && e[6..] == t;
    } else if |EscapeUnit(u)| == 2 {
      assert e[2..] == t;
    } else {
      assert e[1..] == t;
    }
  }

  lemma ReadRawUnit(u: Unit, t: Text)
    requires u >= 32 && u != QUOTE && u != BACKSLASH
    ensures ReadString([u] + t) == Prepend(u, ReadString(t))
  {
    assert ([u] + t)[1..] == t;
  }

  lemma ReadSurrogatePair(u: Unit, v: Unit, t: Text)
    requires HighSurrogate(u) && LowSurrogate(v)
    ensures ReadString([u, v] + t) == Prepend(u, Prepend(v, ReadString(t)))
  {
    hide ReadString;
    ReadRawUnit(v, t);
    ReadRawUnit(u, [v] + t);
    assert [u, v] + t == [u] + ([v] + t);
  }

  function Printed(s: Text, rest: Text): Text { Escape(s) + [QUOTE] + rest }

  lemma PrintedStep(s: Text, rest: Text)
    requires s != []
    ensures StartsWithPair(s) ==> Printed(s, rest) == [s[0], s[1]] + Printed(s[2..], rest)
    ensures !StartsWithPair(s) ==> Printed(s, rest) == EscapeUnit(s[0]) + Printed(s[1..], rest)
  {
    hide EscapeUnit;
  }

  /** A printed string reads back as itself, and reading stops at its closing quote. */
  lemma {:induction false} ReadPrintedString(s: Text, rest: Text)
    ensures ReadString(Printed(s, rest)) == Some((s, rest))
  {
    hide EscapeUnit, ReadString, Prepend, Printed, HighSurrogate, LowSurrogate;
    if s == [] {
      ReadClosingQuote(rest);
    } else {
      PrintedStep(s, rest);
      PrependRead(s, rest);
      if StartsWithPair(s) {
        ReadPrintedString(s[2..], rest);
        ReadSurrogatePair(s[0], s[1], Printed(s[2..], rest));
        PrependRead(s[1..], rest);
        assert s[1..][1..] == s[2..];
      } else {
        ReadPrintedString(s[1..], rest);
        ReadEscapedUnit(s[0], Printed(s[1..], rest));
      }
    }
  }

  lemma PrependRead(s: Text, rest: Text)
    requires s != []
    ensures Prepend(s[0], Some((s[1..], rest))) == Some((s, rest))
  {
    assert s == [s[0]] + s[1..];
  }

  lemma ReadClosingQuote(rest: Text)
    ensures ReadString(Printed([], rest)) == Some(([], rest))
  {
    assert Printed([], rest) == [QUOTE] + rest;
    assert ([QUOTE] + rest)[1..] == rest;
  }

  // ---------- Sorting by key ----------

  lemma {:induction false} LexTotal(a: Text, b: Text)
    ensures a == b || LexLess(a, b) || LexLess(b, a)
    ensures !(LexLess(a, b) && LexLess(b, a))
    ensures !LexLess(a, a)
  {
    if a != [] && b != [] && a[0] == b[0] {
      LexTotal(a[1..], b[1..]);
      assert a == [a[0]] + a[1..] && b == [b[0]] + b[1..];
    }
    if a != [] {
      LexTotal(a[1..], a[1..]);
    }
  }

  lemma {:induction false} LexTransitive(a: Text, b: Text, c: Text)
    requires LexLess(a, b) && LexLess(b, c)
    ensures LexLess(a, c)
  {
    if a != [] && a[0] == b[0] == c[0] {
      LexTransitive(a[1..], b[1..], c[1..]);
    }
  }

  predicate DistinctEntries<T>(entries: seq<Entry<T>>) {
    forall i, j | 0 <= i < j < |entries| :: entries[i].key != entries[j].key
  }

  predicate SortedEntries<T>(entries: seq<Entry<T>>) {
    forall i, j | 0 <= i < j < |entries| :: LexLess(entries[i].key, entries[j].key)
  }

  lemma {:induction false} InsertKeeps<T>(e: Entry<T>, sorted: seq<Entry<T>>)
    ensures multiset(Insert(e, sorted)) == multiset(sorted) + multiset{e}
  {
    if sorted != [] && !LexLess(e.key, sorted[0].key) {
      InsertKeeps(e, sorted[1..]);
      assert sorted == [sorted[0]] + sorted[1..];
    }
  }

  lemma {:induction false} SortKeeps<T>(entries: seq<Entry<T>>)
    ensures multiset(SortByKey(entries)) == multiset(entries)
  {
    if entries != [] {
      SortKeeps(entries[1..]);
      InsertKeeps(entries[0], SortByKey(entries[1..]));
      assert entries == [entries[0]] + entries[1..];
    }
  }

  /** `first` before a sorted list it is below stays sorted. */
  lemma PrependSorts<T>(first: Entry<T>, sorted: seq<Entry<T>>)
    requires SortedEntries(sorted) && forall k | 0 <= k < |sorted| :: LexLess(first.key, sorted[k].key)
    ensures SortedEntries([first] + sorted)
  {
    var r := [first] + sorted;
    assert forall j | 0 < j < |r| :: r[j] == sorted[j - 1];
  }

  lemma {:induction false} InsertSorts<T>(e: Entry<T>, sorted: seq<Entry<T>>)
    requires SortedEntries(sorted) && forall k | 0 <= k < |sorted| :: sorted[k].key != e.key
    ensures SortedEntries(Insert(e, sorted))
  {
    if sorted == [] {
    } else if LexLess(e.key, sorted[0].key) {
      forall k | 0 <= k < |sorted| ensures LexLess(e.key, sorted[k].key) {
        if k > 0 {
          LexTransitive(e.key, sorted[0].key, sorted[k].key);
        }
      }
      PrependSorts(e, sorted);
    } else {
      var tail, r := sorted[1..], Insert(e, sorted[1..]);
      InsertSorts(e, tail);
      InsertKeeps(e, tail);
      LexTotal(e.key, sorted[0].key);
      forall k | 0 <= k < |r| ensures LexLess(sorted[0].key, r[k].key) {
        assert r[k] in multiset(r);
        assert r[k] == e || r[k] in multiset(tail);
        if r[k] != e {
          var j :| 0 <= j < |tail| && tail[j] == r[k];
          assert tail[j] == sorted[j + 1];
        }
      }
      PrependSorts(sorted[0], r);
    }
  }

  lemma SameMembers<T>(xs: seq<T>, ys: seq<T>)
    requires multiset(xs) == multiset(ys)
    ensures forall x :: x in xs <==> x in ys
  {
    assert forall x :: x in xs <==> x in multiset(xs);
    assert forall x :: x in ys <==> x in multiset(ys);
  }

  lemma {:induction false} SortSorts<T>(entries: seq<Entry<T>>)
    requires DistinctEntries(entries)
    ensures SortedEntries(SortByKey(entries))
    ensures forall x :: x in SortByKey(entries) <==> x in entries
  {
    SortKeeps(entries);
    SameMembers(SortByKey(entries), entries);
    if entries != [] {
      var rest := entries[1..];
      assert forall j | 0 <= j < |rest| :: rest[j] == entries[j + 1];
      SortSorts(rest);
      SortKeeps(rest);
      var sorted := SortByKey(rest);
      forall k | 0 <= k < |sorted| ensures sorted[k].key != entries[0].key {
        assert sorted[k] in multiset(sorted) && sorted[k] in multiset(rest);
        var j :| 0 <= j < |rest| && rest[j] == sorted[k];
      }
      InsertSorts(entries[0], sorted);
    }
  }

  /** A strictly sorted list is determined by its members. */
  lemma {:induction false} SortedIsUnique<T>(xs: seq<Entry<T>>, ys: seq<Entry<T>>)
    requires SortedEntries(xs) && SortedEntries(ys)
    requires forall x :: x in xs <==> x in ys
    ensures xs == ys
  {
    if xs == [] {
      assert forall k | 0 <= k < |ys| :: ys[k] in ys;
    } else {
      assert xs[0] in ys;
      assert ys[0] in xs;
      var j :| 0 <= j < |ys| && ys[j] == xs[0];
      var i :| 0 <= i < |xs| && xs[i] == ys[0];
      LexTotal(xs[0].key, ys[0].key);
      assert xs[0] == ys[0];
      forall x ensures x in xs[1..] <==> x in ys[1..] {
        TailMembers(xs, x);
        TailMembers(ys, x);
      }
      SortedIsUnique(xs[1..], ys[1..]);
      assert xs == [xs[0]] + xs[1..] && ys == [ys[0]] + ys[1..];
    }
  }

  lemma TailMembers<T>(xs: seq<Entry<T>>, x: Entry<T>)
    requires SortedEntries(xs) && xs != []
    ensures x in xs[1..] <==> x in xs && x != xs[0]
  {
    LexTotal(xs[0].key, xs[0].key);
    assert xs == [xs[0]] + xs[1..];
    if x in xs[1..] {
      var k :| 0 <= k < |xs[1..]| && xs[1..][k] == x;
      assert LexLess(xs[0].key, xs[k + 1].key);
    }
  }

  // ---------- Members of printed and canonical objects ----------

  lemma {:induction false} LookupAt(members: seq<Member>, i: nat)
    requires DistinctKeys(members) && i < |members|
    ensures Lookup(members, members[i].key) == members[i].value
  {
    if i > 0 {
      assert forall k | 0 < k < |members| :: members[k] == members[1..][k - 1];
      LookupAt(members[1..], i - 1);
    }
  }

  /** The printed members are the defined keys with their printed values. */
  lemma {:induction false} PrintedMembers(members: seq<Member>, e: Entry<Text>)
    requires DistinctKeys(members)
    ensures e in PrintMembers(members) <==>
      Lookup(members, e.key).Some? && e.item == Print(Lookup(members, e.key).value)
  {
    hide Print;
    if members != [] {
      assert forall k | 0 < k < |members| :: members[k] == members[1..][k - 1];
      PrintedMembers(members[1..], e);
    }
  }

  lemma {:induction false} CanonicalMembers(members: seq<Member>, e: Entry<Json>)
    requires DistinctKeys(members)
    ensures e in CanonMembers(members) <==>
      Lookup(members, e.key).Some? && e.item == Canon(Lookup(members, e.key).value)
  {
    hide Canon;
    if members != [] {
      assert forall k | 0 < k < |members| :: members[k] == members[1..][k - 1];
      CanonicalMembers(members[1..], e);
    }
  }

  lemma PrependDistinct<T>(first: Entry<T>, entries: seq<Entry<T>>)
    requires DistinctEntries(entries) && forall k | 0 <= k < |entries| :: entries[k].key != first.key
    ensures DistinctEntries([first] + entries)
  {
  }

  lemma {:induction false} DistinctPrinted(members: seq<Member>)
    requires DistinctKeys(members)
    ensures DistinctEntries(PrintMembers(members)) && DistinctEntries(CanonMembers(members))
    ensures forall e | e in PrintMembers(members) :: exists i | 0 <= i < |members| :: members[i].key == e.key
    ensures forall e | e in CanonMembers(members) :: exists i | 0 <= i < |members| :: members[i].key == e.key
  {
    hide Print, Canon;
    if members != [] {
      var rest := members[1..];
      assert forall i | 0 <= i < |rest| :: rest[i] == members[i + 1];
      DistinctPrinted(rest);
      var es, cs := PrintMembers(rest), CanonMembers(rest);
      if members[0].value.Some? {
        forall k | 0 <= k < |es| ensures es[k].key != members[0].key {
          assert es[k] in es;
        }
        forall k | 0 <= k < |cs| ensures cs[k].key != members[0].key {
          assert cs[k] in cs;
        }
        PrependDistinct(Entry(members[0].key, Print(members[0].value.value)), es);
        PrependDistinct(Entry(members[0].key, Canon(members[0].value.value)), cs);
      }
    }
  }

  // ---------- Reading printed values ----------

  /** What may follow a value: the end of the text, or anything but a number unit. */
  predicate Delimited(rest: Text) { rest == [] || !NumberUnit(rest[0]) }

  /** Reading the text in front of any delimited rest gives the value and leaves the rest. */
  ghost predicate Reads(text: Text, value: Json) {
    && text != []
    && text[0] != RBRACKET && text[0] != RBRACE
    && forall rest: Text :: Delimited(rest) ==> ReadValue(text + rest) == Some((value, rest))
  }

  ghost predicate Paired(es: seq<Entry<Text>>, cs: seq<Entry<Json>>) {
    |es| == |cs| && forall k | 0 <= k < |es| :: es[k].key == cs[k].key && Reads(es[k].item, cs[k].item)
  }

  lemma {:induction false} InsertPaired(e: Entry<Text>, c: Entry<Json>, es: seq<Entry<Text>>, cs: seq<Entry<Json>>)
    requires Paired(es, cs) && e.key == c.key && Reads(e.item, c.item)
    ensures Paired(Insert(e, es), Insert(c, cs))
  {
    hide Reads;
    if es != [] && !LexLess(e.key, es[0].key) {
      InsertPaired(e, c, es[1..], cs[1..]);
    }
  }

  lemma {:induction false} SortPaired(es: seq<Entry<Text>>, cs: seq<Entry<Json>>)
    requires Paired(es, cs)
    ensures Paired(SortByKey(es), SortByKey(cs))
  {
    hide Reads;
    if es != [] {
      SortPaired(es[1..], cs[1..]);
      InsertPaired(es[0], cs[0], SortByKey(es[1..]), SortByKey(cs[1..]));
    }
  }

  lemma {:induction false} NumberStops(token: Text, rest: Text)
    requires (forall k | 0 <= k < |token| :: NumberUnit(token[k])) && Delimited(rest)
    ensures NumberLength(token + rest) == |token|
  {
    if token == [] {
      assert token + rest == rest;
    } else {
      assert (token + rest)[1..] == token[1..] + rest;
      NumberStops(token[1..], rest);
    }
  }

  lemma NumberReads(token: Text)
    requires ValidNumber(token)
    ensures Reads(token, JNumber(token))
  {
    hide ReadMembers, ReadItems, ReadString;
    forall rest: Text | Delimited(rest) ensures ReadValue(token + rest) == Some((JNumber(token), rest)) {
      NumberStops(token, rest);
      var t := token + rest;
      assert t[0] == token[0];
      assert t[..|token|] == token && t[|token|..] == rest;
    }
  }

  lemma StringReads(s: Text)
    ensures Reads(PrintString(s), JString(s))
  {
    hide ReadMembers, ReadItems, ReadString;
    forall rest: Text | Delimited(rest) ensures ReadValue(PrintString(s) + rest) == Some((JString(s), rest)) {
      ReadPrintedString(s, rest);
      var t := PrintString(s) + rest;
      assert t[0] == QUOTE && t[1..] == Escape(s) + [QUOTE] + rest;
    }
  }

  lemma LiteralReads(v: Json)
    requires v.JNull? || v.JBool?
    ensures Reads(Print(v), v)
  {
    hide ReadMembers, ReadItems, ReadString;
    forall rest: Text | Delimited(rest) ensures ReadValue(Print(v) + rest) == Some((v, rest)) {
      var t := Print(v) + rest;
      assert t[..|Print(v)|] == Print(v) && t[|Print(v)|..] == rest;
      assert t[0] == Print(v)[0];
    }
  }

  // ---------- Arrays and objects ----------

  lemma {:induction false} ItemsRead(texts: seq<Text>, items: seq<Json>, rest: Text)
    requires |texts| == |items| > 0 && forall k | 0 <= k < |texts| :: Reads(texts[k], items[k])
    ensures ReadItems(Join(texts) + [RBRACKET] + rest) == Some((items, rest))
  {
    hide ReadValue;
    var t := Join(texts) + [RBRACKET] + rest;
    if |texts| == 1 {
      assert t == texts[0] + ([RBRACKET] + rest);
      assert ([RBRACKET] + rest)[1..] == rest;
      assert items == [items[0]];
    } else {
      var tail := Join(texts[1..]) + [RBRACKET] + rest;
      ItemsRead(texts[1..], items[1..], rest);
      assert t == texts[0] + ([COMMA] + tail);
      assert ([COMMA] + tail)[1..] == tail;
      assert items == [items[0]] + items[1..];
    }
  }

  lemma MemberReads(key: Text, text: Text, value: Json, rest: Text)
    requires Reads(text, value) && Delimited(rest)
    ensures ReadMember(PrintString(key) + [COLON] + text + rest) == Some((Member(key, Some(value)), rest))
  {
    hide ReadValue, ReadString;
    var t, tail := PrintString(key) + [COLON] + text + rest, [COLON] + (text + rest);
    ReadPrintedString(key, tail);
    assert t[0] == QUOTE;
    assert t[1..] == Escape(key) + [QUOTE] + tail;
    assert tail[1..] == text + rest;
  }

  lemma {:induction false} MembersRead(es: seq<Entry<Text>>, cs: seq<Entry<Json>>, rest: Text)
    requires Paired(es, cs) && |es| > 0
    ensures ReadMembers(Join(MemberTexts(es)) + [RBRACE] + rest) == Some((AsMembers(cs), rest))
  {
    hide ReadMember, PrintString, Reads;
    var t, first := Join(MemberTexts(es)) + [RBRACE] + rest, PrintString(es[0].key) + [COLON] + es[0].item;
    if |es| == 1 {
      MemberReads(es[0].key, es[0].item, cs[0].item, [RBRACE] + rest);
      assert MemberTexts(es[1..]) == [];
      assert t == first + ([RBRACE] + rest);
      assert ([RBRACE] + rest)[1..] == rest;
      assert AsMembers(cs) == [Member(cs[0].key, Some(cs[0].item))];
    } else {
      var tail := Join(MemberTexts(es[1..])) + [RBRACE] + rest;
      MembersRead(es[1..], cs[1..], rest);
      MemberReads(es[0].key, es[0].item, cs[0].item, [COMMA] + tail);
      MemberTextsTail(es);
      assert t == first + ([COMMA] + tail);
      assert ([COMMA] + tail)[1..] == tail;
    }
  }

  lemma MemberTextsTail(es: seq<Entry<Text>>)
    requires |es| > 1
    ensures |MemberTexts(es)| > 1 && MemberTexts(es)[1..] == MemberTexts(es[1..])
  {
    hide PrintString;
    assert |MemberTexts(es[1..])| > 0;
  }

  lemma ArrayTextReads(texts: seq<Text>, items: seq<Json>, rest: Text)
    requires |texts| == |items| && forall k | 0 <= k < |texts| :: Reads(texts[k], items[k])
    ensures ReadValue([LBRACKET] + Join(texts) + [RBRACKET] + rest) == Some((JArray(items), rest))
  {
    hide Reads, ReadMembers, ReadItems, ReadString;
    var body := Join(texts);
    var t := [LBRACKET] + body + [RBRACKET] + rest;
    assert t[0] == LBRACKET && t[1..] == body + [RBRACKET] + rest;
    if texts == [] {
      assert t[1] == RBRACKET && t[2..] == rest;
    } else {
      ItemsRead(texts, items, rest);
      FirstUnit(texts, items[0]);
      assert t[1] == body[0];
    }
  }

  lemma ArrayReads(items: seq<Json>)
    requires forall k | 0 <= k < |items| :: Reads(Print(items[k]), Canon(items[k]))
    ensures Reads(Print(JArray(items)), Canon(JArray(items)))
  {
    hide Reads, ReadValue, Join, PrintItems, CanonItems;
    var text := Print(JArray(items));
    assert text == [LBRACKET] + Join(PrintItems(items)) + [RBRACKET];
    forall rest: Text | Delimited(rest) ensures ReadValue(text + rest) == Some((Canon(JArray(items)), rest)) {
      ArrayTextReads(PrintItems(items), CanonItems(items), rest);
    }
    ReadsIntro(text, Canon(JArray(items)));
  }

  lemma FirstUnit(texts: seq<Text>, value: Json)
    requires |texts| > 0 && Reads(texts[0], value)
    ensures Join(texts) != [] && Join(texts)[0] != RBRACKET
  {
  }

  lemma ReadsIntro(text: Text, value: Json)
    requires text != [] && text[0] != RBRACKET && text[0] != RBRACE
    requires forall rest: Text :: Delimited(rest) ==> ReadValue(text + rest) == Some((value, rest))
    ensures Reads(text, value)
  {
  }

  lemma ObjectTextReads(es: seq<Entry<Text>>, cs: seq<Entry<Json>>, rest: Text)
    requires Paired(es, cs)
    ensures ReadValue([LBRACE] + Join(MemberTexts(es)) + [RBRACE] + rest) == Some((JObject(AsMembers(cs)), rest))
  {
    hide Reads, ReadMembers, ReadItems, ReadString, Paired;
    PairedLength(es, cs);
    var body := Join(MemberTexts(es));
    var t := [LBRACE] + body + [RBRACE] + rest;
    assert t[0] == LBRACE && t[1..] == body + [RBRACE] + rest;
    if es == [] {
      assert t[1] == RBRACE && t[2..] == rest;
    } else {
      MembersRead(es, cs, rest);
      FirstQuote(es);
      assert t[1] == body[0];
    }
  }

  lemma FirstQuote(es: seq<Entry<Text>>)
    requires es != []
    ensures Join(MemberTexts(es)) != [] && Join(MemberTexts(es))[0] == QUOTE
  {
    assert MemberTexts(es)[0] == PrintString(es[0].key) + [COLON] + es[0].item;
  }

  lemma ObjectReads(members: seq<Member>)
    requires Paired(PrintMembers(members), CanonMembers(members))
    ensures Reads(Print(JObject(members)), Canon(JObject(members)))
  {
    hide Reads, ReadValue, Paired, Join, MemberTexts, SortByKey;
    var es, cs := SortByKey(PrintMembers(members)), SortByKey(CanonMembers(members));
    SortPaired(PrintMembers(members), CanonMembers(members));
    var text := Print(JObject(members));
    assert text == [LBRACE] + Join(MemberTexts(es)) + [RBRACE];
    forall rest: Text | Delimited(rest) ensures ReadValue(text + rest) == Some((Canon(JObject(members)), rest)) {
      ObjectTextReads(es, cs, rest);
    }
    ReadsIntro(text, Canon(JObject(members)));
  }

  lemma PairedLength(es: seq<Entry<Text>>, cs: seq<Entry<Json>>)
    requires Paired(es, cs)
    ensures |es| == |cs| && (es == [] <==> cs == [])
  {
  }

  lemma {:induction false} PrintedReads(v: Json)
    requires WellFormed(v)
    ensures Reads(Print(v), Canon(v))
    decreases v, 1
  {
    hide Reads, Print;
    match v {
      case JNumber(token) => NumberReads(token); PrintLeaf(v);
      case JString(s) => StringReads(s); PrintLeaf(v);
      case JArray(items) =>
        forall k | 0 <= k < |items| ensures Reads(Print(items[k]), Canon(items[k])) {
          PrintedReads(items[k]);
        }
        ArrayReads(items);
      case JObject(members) =>
        MembersPaired(members);
        ObjectReads(members);
      case _ => LiteralReads(v);
    }
  }

  lemma PrintLeaf(v: Json)
    ensures v.JNumber? ==> Print(v) == v.token
    ensures v.JString? ==> Print(v) == PrintString(v.s)
  {
  }

  lemma {:induction false} MembersPaired(members: seq<Member>)
    requires forall k | 0 <= k < |members| && members[k].value.Some? :: WellFormed(members[k].value.value)
    ensures Paired(PrintMembers(members), CanonMembers(members))
    decreases members, 0
  {
    hide Reads, Print, Canon;
    if members != [] {
      MembersPaired(members[1..]);
      if members[0].value.Some? {
        PrintedReads(members[0].value.value);
      }
    }
  }

  /** Reading canonical text gives the canonical value. */
  lemma ReadPrinted(v: Json)
    requires WellFormed(v)
    ensures Read(Print(v)) == Some(Canon(v))
  {
    PrintedReads(v);
    assert Print(v) + [] == Print(v);
  }

  // ---------- The canonical form theorem ----------

  lemma {:induction false} EquivalentPrints(a: Json, b: Json)
    requires WellFormed(a) && WellFormed(b) && Equivalent(a, b)
    ensures Print(a) == Print(b)
    decreases a
  {
    match (a, b) {
      case (JArray(xs), JArray(ys)) =>
        forall k | 0 <= k < |xs| ensures PrintItems(xs)[k] == PrintItems(ys)[k] {
          EquivalentPrints(xs[k], ys[k]);
        }
        assert PrintItems(xs) == PrintItems(ys);
      case (JObject(ms), JObject(ns)) =>
        forall i | 0 <= i < |ms| && ms[i].value.Some?
          ensures Lookup(ns, ms[i].key).Some? && Print(ms[i].value.value) == Print(Lookup(ns, ms[i].key).value)
        {
          LookupWellFormed(ns, ms[i].key);
          EquivalentPrints(ms[i].value.value, Lookup(ns, ms[i].key).value);
        }
        SamePrintedMembers(ms, ns);
        PrintFromMembers(ms, ns);
      case _ =>
    }
  }

  lemma LookupWellFormed(members: seq<Member>, key: Text)
    requires WellFormed(JObject(members)) && Lookup(members, key).Some?
    ensures WellFormed(Lookup(members, key).value)
  {
    var k :| 0 <= k < |members| && members[k] == Member(key, Lookup(members, key));
  }

  lemma PrintFromMembers(ms: seq<Member>, ns: seq<Member>)
    requires DistinctKeys(ms) && DistinctKeys(ns)
    requires forall e :: e in PrintMembers(ms) <==> e in PrintMembers(ns)
    ensures Print(JObject(ms)) == Print(JObject(ns))
  {
    var es, fs := PrintMembers(ms), PrintMembers(ns);
    DistinctPrinted(ms);
    DistinctPrinted(ns);
    SortSorts(es);
    SortSorts(fs);
    SortedIsUnique(SortByKey(es), SortByKey(fs));
  }

  lemma SamePrintedMembers(ms: seq<Member>, ns: seq<Member>)
    requires DistinctKeys(ms) && DistinctKeys(ns)
    requires forall i | 0 <= i < |ms| && ms[i].value.Some? ::
      Lookup(ns, ms[i].key).Some? && Print(ms[i].value.value) == Print(Lookup(ns, ms[i].key).value)
    requires forall j | 0 <= j < |ns| && ns[j].value.Some? :: Lookup(ms, ns[j].key).Some?
    ensures forall e :: e in PrintMembers(ms) <==> e in PrintMembers(ns)
  {
    hide Print, Lookup;
    forall e ensures e in PrintMembers(ms) <==> e in PrintMembers(ns) {
      PrintedMembers(ms, e);
      PrintedMembers(ns, e);
      if Lookup(ms, e.key).Some? {
        var i :| 0 <= i < |ms| && ms[i] == Member(e.key, Lookup(ms, e.key));
        assert ms[i].value.Some?;
      }
      if Lookup(ns, e.key).Some? {
        var j :| 0 <= j < |ns| && ns[j] == Member(e.key, Lookup(ns, e.key));
        assert ns[j].value.Some?;
      }
    }
  }

  lemma {:induction false} SameCanonIsEquivalent(a: Json, b: Json)
    requires WellFormed(a) && WellFormed(b) && Canon(a) == Canon(b)
    ensures Equivalent(a, b)
    decreases a
  {
    match (a, b) {
      case (JArray(xs), JArray(ys)) =>
        assert |CanonItems(xs)| == |CanonItems(ys)|;
        forall k | 0 <= k < |xs| ensures Equivalent(xs[k], ys[k]) {
          assert CanonItems(xs)[k] == CanonItems(ys)[k];
          SameCanonIsEquivalent(xs[k], ys[k]);
        }
      case (JObject(ms), JObject(ns)) =>
        forall i | 0 <= i < |ms| && ms[i].value.Some?
          ensures Lookup(ns, ms[i].key).Some? && Equivalent(ms[i].value.value, Lookup(ns, ms[i].key).value)
        {
          SameCanonLookup(ms, ns, i);
          LookupWellFormed(ns, ms[i].key);
          SameCanonIsEquivalent(ms[i].value.value, Lookup(ns, ms[i].key).value);
        }
        forall j | 0 <= j < |ns| && ns[j].value.Some? ensures Lookup(ms, ns[j].key).Some? {
          SameCanonLookup(ns, ms, j);
        }
      case _ =>
    }
  }

  lemma SameCanonLookup(ms: seq<Member>, ns: seq<Member>, i: nat)
    requires DistinctKeys(ms) && DistinctKeys(ns) && Canon(JObject(ms)) == Canon(JObject(ns))
    requires i < |ms| && ms[i].value.Some?
    ensures Lookup(ns, ms[i].key).Some? && Canon(ms[i].value.value) == Canon(Lookup(ns, ms[i].key).value)
  {
    var es, fs := CanonMembers(ms), CanonMembers(ns);
    AsMembersInjective(SortByKey(es), SortByKey(fs));
    DistinctPrinted(ms);
    DistinctPrinted(ns);
    SortSorts(es);
    SortSorts(fs);
    LookupAt(ms, i);
    var e := Entry(ms[i].key, Canon(ms[i].value.value));
    CanonicalMembers(ms, e);
    CanonicalMembers(ns, e);
    assert e in es && e in SortByKey(es);
  }

  lemma AsMembersInjective(es: seq<Entry<Json>>, fs: seq<Entry<Json>>)
    requires AsMembers(es) == AsMembers(fs)
    ensures es == fs
  {
    assert |es| == |AsMembers(es)| == |fs|;
    forall k | 0 <= k < |es| ensures es[k] == fs[k] {
      assert AsMembers(es)[k] == AsMembers(fs)[k];
    }
  }

  /** Two values print the same text exactly when they are equal up to member order
      and undefined members. */
  lemma PrintIsCanonical(a: Json, b: Json)
    requires WellFormed(a) && WellFormed(b)
    ensures Print(a) == Print(b) <==> Equivalent(a, b)
  {
    if Print(a) == Print(b) {
      ReadPrinted(a);
      ReadPrinted(b);
      SameCanonIsEquivalent(a, b);
    }
    if Equivalent(a, b) {
      EquivalentPrints(a, b);
    }
  }
}
