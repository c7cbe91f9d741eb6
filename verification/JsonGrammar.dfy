/**
 Which compact texts are read as which values: strings spelled as the standard allows, members in any
 order. Reading gives a value exactly if the text writes it.
 */
module JsonGrammar {
  import opened Basics
  import opened Utf8
  import opened CanonicalJson
  import opened CanonicalJsonTheorems
  import opened CanonicalForm

  /** A string between its quotes. */
  ghost predicate WritesString(t: Text, s: Text) { t != [] && t[0] == 34 && SpellsString(t[1..], s, []) }

  function Pairs(keys: seq<Text>, texts: seq<Text>): (parts: seq<Text>)
    requires |keys| == |texts|
    ensures |parts| == |keys| && forall k | 0 <= k < |keys| :: parts[k] == keys[k] + FromAscii(":") + texts[k]
  {
    seq(|keys|, k requires 0 <= k < |keys| => keys[k] + FromAscii(":") + texts[k])
  }

  /** The text is JSON for the value (section 2 of RFC 8259), without white space; as a number counts any run
      of characters that occur in numbers. */
  ghost predicate Writes(t: Text, v: Json)
    decreases v
  {
    match v
    case JNull => t == FromAscii("null")
    case JBool(b) => t == FromAscii(if b then "true" else "false")
    case JNumber(token) => t == token != [] && forall k | 0 <= k < |t| :: t[k] in FromAscii("0123456789.+-eE")
    case JString(s) => WritesString(t, s)
    case JArray(items) =>
      exists texts: seq<Text> | |texts| == |items| ::
        && t == FromAscii("[") + Separated(texts) + FromAscii("]")
        && forall k | 0 <= k < |items| :: Writes(texts[k], items[k])
    case JObject(members) =>
      exists keys: seq<Text>, texts: seq<Text> | |keys| == |texts| == |members| ::
        && t == FromAscii("{") + Separated(Pairs(keys, texts)) + FromAscii("}")
        && forall k | 0 <= k < |members| ::
             members[k].value.Some? && WritesString(keys[k], members[k].key) && Writes(texts[k], members[k].value.value)
  }

  // ---------- What is written is read ----------

  lemma StringIsRead(t: Text, s: Text, rest: Text)
    requires WritesString(t, s)
    ensures t != [] && t[0] == QUOTE && (t + rest)[0] == QUOTE && ReadString((t + rest)[1..]) == Some((s, rest))
  {
    hide Spells, ReadString;
    var parts: seq<Text> :| |parts| == |s|
      && t[1..] == Flat(parts) + FromAscii("\"") + [] && forall k | 0 <= k < |s| :: Spells(parts[k], s[k]);
    assert (t + rest)[1..] == Flat(parts) + FromAscii("\"") + rest;
    ReadStringExactly((t + rest)[1..], s, rest);
    assert SpellsString((t + rest)[1..], s, rest);
  }

  lemma WrittenStringReads(t: Text, s: Text)
    requires WritesString(t, s)
    ensures Reads(t, JString(s))
  {
    hide WritesString, ReadString, ReadItems, ReadMembers;
    StringIsRead(t, s, []);
    forall rest: Text | Delimited(rest) ensures ReadValue(t + rest) == Some((JString(s), rest)) {
      StringIsRead(t, s, rest);
    }
  }

  lemma WrittenLeafReads(t: Text, v: Json)
    requires Writes(t, v) && (v.JNull? || v.JBool? || v.JNumber? || v.JString?)
    ensures Reads(t, v)
  {
    hide Reads, WritesString, ReadValue;
    match v {
      case JNumber(token) =>
        forall k | 0 <= k < |token| ensures NumberUnit(token[k]) {
          NumberUnitExactly(token[k]);
        }
        NumberReads(token);
      case JString(s) =>
        WrittenStringReads(t, s);
      case JNull =>
        assert FromAscii("null") == NULL_TEXT;
        LiteralReads(v);
      case JBool(_) =>
        assert FromAscii("true") == TRUE_TEXT && FromAscii("false") == FALSE_TEXT;
        LiteralReads(v);
    }
  }

  /** The member is read from the text, whatever delimited rest follows. */
  ghost predicate ReadsMember(t: Text, m: Member) {
    && t != [] && t[0] == QUOTE
    && forall rest: Text :: Delimited(rest) ==> ReadMember(t + rest) == Some((m, rest))
  }

  lemma WrittenMemberReads(key: Text, name: Text, text: Text, value: Json)
    requires WritesString(key, name) && Reads(text, value)
    ensures ReadsMember(key + FromAscii(":") + text, Member(name, Some(value)))
  {
    hide WritesString, ReadString, ReadValue;
    assert FromAscii(":") == [COLON];
    StringIsRead(key, name, []);
    var t := key + [COLON] + text;
    forall rest: Text | Delimited(rest) ensures ReadMember(t + rest) == Some((Member(name, Some(value)), rest)) {
      var tail := [COLON] + (text + rest);
      StringIsRead(key, name, tail);
      assert t + rest == key + tail && tail[1..] == text + rest;
    }
  }

  lemma {:induction false} WrittenMembersRead(parts: seq<Text>, members: seq<Member>, rest: Text)
    requires |parts| == |members| > 0 && forall k | 0 <= k < |parts| :: ReadsMember(parts[k], members[k])
    ensures ReadMembers(Join(parts) + [RBRACE] + rest) == Some((members, rest))
  {
    hide ReadMember;
    var t := Join(parts) + [RBRACE] + rest;
    if |parts| == 1 {
      assert t == parts[0] + ([RBRACE] + rest);
      assert ([RBRACE] + rest)[1..] == rest && members == [members[0]];
    } else {
      var tail := Join(parts[1..]) + [RBRACE] + rest;
      WrittenMembersRead(parts[1..], members[1..], rest);
      assert t == parts[0] + ([COMMA] + tail);
      assert ([COMMA] + tail)[1..] == tail && members == [members[0]] + members[1..];
    }
  }

  lemma WrittenObjectReads(parts: seq<Text>, members: seq<Member>)
    requires |parts| == |members| && forall k | 0 <= k < |parts| :: ReadsMember(parts[k], members[k])
    ensures Reads([LBRACE] + Join(parts) + [RBRACE], JObject(members))
  {
    hide Reads, ReadValue, ReadsMember, Join;
    var text := [LBRACE] + Join(parts) + [RBRACE];
    forall rest: Text | Delimited(rest) ensures ReadValue(text + rest) == Some((JObject(members), rest)) {
      ObjectTextRead(parts, members, rest);
    }
    ReadsIntro(text, JObject(members));
  }

  lemma ObjectTextRead(parts: seq<Text>, members: seq<Member>, rest: Text)
    requires |parts| == |members| && forall k | 0 <= k < |parts| :: ReadsMember(parts[k], members[k])
    ensures ReadValue([LBRACE] + Join(parts) + [RBRACE] + rest) == Some((JObject(members), rest))
  {
    hide ReadMembers, ReadItems, ReadString, ReadsMember;
    var body := Join(parts);
    var t := [LBRACE] + body + [RBRACE] + rest;
    assert t[0] == LBRACE && t[1..] == body + [RBRACE] + rest;
    if parts == [] {
      assert t[1] == RBRACE && t[2..] == rest;
    } else {
      WrittenMembersRead(parts, members, rest);
      FirstPart(parts, members[0]);
      assert t[1] == body[0];
    }
  }

  lemma FirstPart(parts: seq<Text>, m: Member)
    requires parts != [] && ReadsMember(parts[0], m)
    ensures Join(parts) != [] && Join(parts)[0] == QUOTE
  {
    hide ReadMember;
  }

  lemma WrittenArrayReads(texts: seq<Text>, items: seq<Json>)
    requires |texts| == |items| && forall k | 0 <= k < |texts| :: Reads(texts[k], items[k])
    ensures Reads([LBRACKET] + Join(texts) + [RBRACKET], JArray(items))
  {
    hide Reads, ReadValue;
    var text := [LBRACKET] + Join(texts) + [RBRACKET];
    forall rest: Text | Delimited(rest) ensures ReadValue(text + rest) == Some((JArray(items), rest)) {
      ArrayTextReads(texts, items, rest);
    }
    ReadsIntro(text, JArray(items));
  }

  lemma ArrayTexts(t: Text, items: seq<Json>) returns (texts: seq<Text>)
    requires Writes(t, JArray(items))
    ensures |texts| == |items| && t == FromAscii("[") + Separated(texts) + FromAscii("]")
    ensures forall k | 0 <= k < |items| :: Writes(texts[k], items[k])
  {
    hide Separated, FromAscii;
    texts :| |texts| == |items|
      && t == FromAscii("[") + Separated(texts) + FromAscii("]")
      && forall k | 0 <= k < |items| :: Writes(texts[k], items[k]);
  }

  lemma ArrayIsRead(t: Text, items: seq<Json>)
    requires Writes(t, JArray(items))
    requires forall k, text | 0 <= k < |items| && Writes(text, items[k]) :: Reads(text, items[k])
    ensures Reads(t, JArray(items))
  {
    hide Reads, ReadValue, Separated, Join, Writes;
    var texts := ArrayTexts(t, items);
    SeparatedExactly(texts);
    assert FromAscii("[") == [LBRACKET] && FromAscii("]") == [RBRACKET];
    WrittenArrayReads(texts, items);
  }

  lemma ObjectTexts(t: Text, members: seq<Member>) returns (keys: seq<Text>, texts: seq<Text>)
    requires Writes(t, JObject(members))
    ensures |keys| == |texts| == |members| && t == FromAscii("{") + Separated(Pairs(keys, texts)) + FromAscii("}")
    ensures forall k | 0 <= k < |members| ::
      members[k].value.Some? && WritesString(keys[k], members[k].key) && Writes(texts[k], members[k].value.value)
  {
    hide Separated, FromAscii, WritesString, Pairs;
    keys, texts :| |keys| == |texts| == |members|
      && t == FromAscii("{") + Separated(Pairs(keys, texts)) + FromAscii("}")
      && forall k | 0 <= k < |members| ::
           members[k].value.Some? && WritesString(keys[k], members[k].key)
           && Writes(texts[k], members[k].value.value);
  }

  lemma ObjectIsRead(t: Text, members: seq<Member>)
    requires Writes(t, JObject(members))
    requires forall k, text | 0 <= k < |members| && members[k].value.Some? && Writes(text, members[k].value.value) ::
      Reads(text, members[k].value.value)
    ensures Reads(t, JObject(members))
  {
    hide Reads, ReadValue, WritesString, Separated, Join, ReadsMember, Writes;
    var keys, texts := ObjectTexts(t, members);
    forall k | 0 <= k < |members| ensures ReadsMember(Pairs(keys, texts)[k], members[k]) {
      WrittenMemberReads(keys[k], members[k].key, texts[k], members[k].value.value);
    }
    SeparatedExactly(Pairs(keys, texts));
    assert FromAscii("{") == [LBRACE] && FromAscii("}") == [RBRACE];
    WrittenObjectReads(Pairs(keys, texts), members);
  }

  lemma {:induction false} WrittenReads(t: Text, v: Json)
    requires Writes(t, v)
    ensures Reads(t, v)
    decreases v
  {
    hide Reads, ReadValue, WritesString, Writes;
    match v {
      case JArray(items) =>
        forall k, text | 0 <= k < |items| && Writes(text, items[k]) ensures Reads(text, items[k]) {
          WrittenReads(text, items[k]);
        }
        ArrayIsRead(t, items);
      case JObject(members) =>
        forall k, text | 0 <= k < |members| && members[k].value.Some? && Writes(text, members[k].value.value)
          ensures Reads(text, members[k].value.value)
        {
          WrittenReads(text, members[k].value.value);
        }
        ObjectIsRead(t, members);
      case _ =>
        WrittenLeafReads(t, v);
    }
  }

  // ---------- What is read was written ----------

  lemma StringWasWritten(t: Text)
    requires t != [] && t[0] == QUOTE && ReadString(t[1..]).Some?
    ensures var (s, rest) := ReadString(t[1..]).value;
      exists p: Text | t == p + rest :: WritesString(p, s)
  {
    hide ReadString, Spells;
    var (s, rest) := ReadString(t[1..]).value;
    ReadStringExactly(t[1..], s, rest);
    var parts: seq<Text> :| |parts| == |s|
      && t[1..] == Flat(parts) + FromAscii("\"") + rest && forall k | 0 <= k < |s| :: Spells(parts[k], s[k]);
    var p := [t[0]] + Flat(parts) + FromAscii("\"");
    assert p[1..] == Flat(parts) + FromAscii("\"") + [];
    assert SpellsString(p[1..], s, []);
    assert t == [t[0]] + t[1..] && t == p + rest;
  }

  lemma {:induction false} ValueWasWritten(t: Text) returns (p: Text)
    requires ReadValue(t).Some?
    ensures t == p + ReadValue(t).value.1 && Writes(p, ReadValue(t).value.0)
    decreases |t|, 1
  {
    hide ReadString, WritesString, Separated, NumberUnit;
    var (v, rest) := ReadValue(t).value;
    if t[0] == QUOTE {
      StringWasWritten(t);
      p :| t == p + rest && WritesString(p, v.s);
    } else if t[0] == LBRACKET {
      p := ArrayWasWritten(t);
    } else if t[0] == LBRACE {
      p := ObjectWasWritten(t);
    } else {
      p := LeafWasWritten(t);
    }
  }

  predicate StartsWithWord(t: Text) { NULL_TEXT <= t || TRUE_TEXT <= t || FALSE_TEXT <= t }

  predicate IsWord(p: Text, v: Json) {
    || (v == JNull && p == NULL_TEXT) || (v == JBool(true) && p == TRUE_TEXT)
    || (v == JBool(false) && p == FALSE_TEXT)
  }

  lemma WordIsRead(t: Text) returns (p: Text)
    requires t != [] && t[0] != QUOTE && t[0] != LBRACKET && t[0] != LBRACE && StartsWithWord(t)
    ensures ReadValue(t).Some? && t == p + ReadValue(t).value.1 && IsWord(p, ReadValue(t).value.0)
  {
    hide ReadString, ReadItems, ReadMembers, NumberUnit;
    p := if NULL_TEXT <= t then NULL_TEXT else if TRUE_TEXT <= t then TRUE_TEXT else FALSE_TEXT;
  }

  lemma NumberIsRead(t: Text)
    requires t != [] && t[0] != QUOTE && t[0] != LBRACKET && t[0] != LBRACE && !StartsWithWord(t) && ReadValue(t).Some?
    ensures NumberLength(t) > 0
    ensures ReadValue(t) == Some((JNumber(t[..NumberLength(t)]), t[NumberLength(t)..]))
  {
    hide ReadString, ReadItems, ReadMembers, NumberUnit, NULL_TEXT, TRUE_TEXT, FALSE_TEXT;
  }

  lemma LeafWasWritten(t: Text) returns (p: Text)
    requires ReadValue(t).Some? && t[0] != QUOTE && t[0] != LBRACKET && t[0] != LBRACE
    ensures t == p + ReadValue(t).value.1 && Writes(p, ReadValue(t).value.0)
  {
    hide ReadValue, Writes, NULL_TEXT, TRUE_TEXT, FALSE_TEXT, StartsWithWord, IsWord, NumberUnit;
    if StartsWithWord(t) {
      p := WordIsRead(t);
      WordIsWritten(p, ReadValue(t).value.0);
    } else {
      NumberIsRead(t);
      p := t[..NumberLength(t)];
      NumberIsWritten(p);
    }
  }

  lemma WordTexts()
    ensures FromAscii("null") == NULL_TEXT && FromAscii("true") == TRUE_TEXT && FromAscii("false") == FALSE_TEXT
    ensures |NULL_TEXT| == |TRUE_TEXT| == 4 && |FALSE_TEXT| == 5
  {
  }

  lemma WordIsWritten(p: Text, v: Json)
    requires IsWord(p, v)
    ensures Writes(p, v)
  {
    hide FromAscii, NULL_TEXT, TRUE_TEXT, FALSE_TEXT;
    WordTexts();
  }

  lemma NumberIsWritten(p: Text)
    requires p != [] && forall k | 0 <= k < |p| :: NumberUnit(p[k])
    ensures Writes(p, JNumber(p))
  {
    forall k | 0 <= k < |p| ensures p[k] in FromAscii("0123456789.+-eE") {
      NumberUnitExactly(p[k]);
    }
  }

  lemma {:induction false} ArrayWasWritten(t: Text) returns (p: Text)
    requires ReadValue(t).Some? && t[0] == LBRACKET
    ensures t == p + ReadValue(t).value.1 && Writes(p, ReadValue(t).value.0)
    decreases |t|, 0
  {
    hide ReadString, ReadMembers, Separated, Writes, Join;
    var (v, rest) := ReadValue(t).value;
    var texts: seq<Text> := [];
    assert t == [t[0]] + t[1..];
    if t[1] != RBRACKET {
      texts := ItemsWereWritten(t[1..]);
    } else {
      assert t == [t[0], t[1]] + t[2..];
      NothingJoined();
    }
    assert t == [LBRACKET] + Join(texts) + [RBRACKET] + rest;
    p := [LBRACKET] + Join(texts) + [RBRACKET];
    ArrayWrites(texts, v.items);
  }

  lemma NothingJoined()
    ensures Join([]) == []
  {
  }

  lemma Brackets()
    ensures FromAscii("[") == [LBRACKET] && FromAscii("]") == [RBRACKET]
    ensures FromAscii("{") == [LBRACE] && FromAscii("}") == [RBRACE]
  {
  }

  lemma ArrayWrites(texts: seq<Text>, items: seq<Json>)
    requires |texts| == |items| && forall k | 0 <= k < |items| :: Writes(texts[k], items[k])
    ensures Writes([LBRACKET] + Join(texts) + [RBRACKET], JArray(items))
  {
    hide Separated, Join, FromAscii;
    SeparatedExactly(texts);
    Brackets();
    var t := [LBRACKET] + Join(texts) + [RBRACKET];
    assert t == FromAscii("[") + Separated(texts) + FromAscii("]");
  }

  lemma {:induction false} ItemsWereWritten(t: Text) returns (texts: seq<Text>)
    requires ReadItems(t).Some?
    ensures var (items, rest) := ReadItems(t).value;
      && |texts| == |items| && t == Join(texts) + [RBRACKET] + rest
      && forall k | 0 <= k < |items| :: Writes(texts[k], items[k])
    decreases |t|, 2
  {
    hide ReadValue, Writes;
    var first := ValueWasWritten(t);
    var after := ReadValue(t).value.1;
    texts := [first];
    assert after == [after[0]] + after[1..];
    if after[0] == COMMA {
      var more := ItemsWereWritten(after[1..]);
      texts := [first] + more;
      assert texts[1..] == more;
    }
  }

  lemma {:induction false} ObjectWasWritten(t: Text) returns (p: Text)
    requires ReadValue(t).Some? && t[0] == LBRACE
    ensures t == p + ReadValue(t).value.1 && Writes(p, ReadValue(t).value.0)
    decreases |t|, 0
  {
    hide ReadString, ReadItems, Separated, WritesString, Writes, Join;
    var (v, rest) := ReadValue(t).value;
    var keys: seq<Text>, texts: seq<Text> := [], [];
    assert t == [t[0]] + t[1..];
    if t[1] != RBRACE {
      keys, texts := MembersWereWritten(t[1..]);
    } else {
      assert t == [t[0], t[1]] + t[2..];
      NothingJoined();
      assert Pairs(keys, texts) == [];
    }
    assert t == [LBRACE] + Join(Pairs(keys, texts)) + [RBRACE] + rest;
    p := [LBRACE] + Join(Pairs(keys, texts)) + [RBRACE];
    ObjectWrites(keys, texts, v.members);
  }

  lemma ObjectWrites(keys: seq<Text>, texts: seq<Text>, members: seq<Member>)
    requires |keys| == |texts| == |members|
    requires forall k | 0 <= k < |members| ::
      members[k].value.Some? && WritesString(keys[k], members[k].key) && Writes(texts[k], members[k].value.value)
    ensures Writes([LBRACE] + Join(Pairs(keys, texts)) + [RBRACE], JObject(members))
  {
    hide Separated, Join, WritesString, Pairs, FromAscii;
    SeparatedExactly(Pairs(keys, texts));
    Brackets();
    var t := [LBRACE] + Join(Pairs(keys, texts)) + [RBRACE];
    assert t == FromAscii("{") + Separated(Pairs(keys, texts)) + FromAscii("}");
  }

  lemma {:induction false} MemberWasWritten(t: Text) returns (key: Text, text: Text)
    requires ReadMember(t).Some?
    ensures var (m, rest) := ReadMember(t).value;
      && t == key + FromAscii(":") + text + rest
      && m.value.Some? && WritesString(key, m.key) && Writes(text, m.value.value)
    decreases |t|, 2
  {
    hide ReadString, ReadValue, WritesString, Writes;
    StringWasWritten(t);
    var (name, after) := ReadString(t[1..]).value;
    key :| t == key + after && WritesString(key, name);
    assert FromAscii(":") == [COLON] && after == [after[0]] + after[1..];
    text := ValueWasWritten(after[1..]);
  }

  lemma {:induction false} MembersWereWritten(t: Text) returns (keys: seq<Text>, texts: seq<Text>)
    requires ReadMembers(t).Some?
    ensures var (members, rest) := ReadMembers(t).value;
      && |keys| == |texts| == |members| && t == Join(Pairs(keys, texts)) + [RBRACE] + rest
      && forall k | 0 <= k < |members| ::
           members[k].value.Some? && WritesString(keys[k], members[k].key) && Writes(texts[k], members[k].value.value)
    decreases |t|, 3
  {
    hide ReadMember, Writes, WritesString;
    var key, text := MemberWasWritten(t);
    var after := ReadMember(t).value.1;
    keys, texts := [key], [text];
    assert after == [after[0]] + after[1..];
    if after[0] == COMMA {
      var moreKeys, moreTexts := MembersWereWritten(after[1..]);
      keys, texts := [key] + moreKeys, [text] + moreTexts;
      assert Pairs(keys, texts)[1..] == Pairs(moreKeys, moreTexts);
    }
  }

  /** A text is read as a value exactly if it is JSON for it. */
  lemma ReadExactly(t: Text, v: Json)
    ensures Read(t) == Some(v) <==> Writes(t, v)
  {
    hide ReadValue, Writes;
    if Read(t) == Some(v) {
      var p := ValueWasWritten(t);
      assert t == p;
    }
    if Writes(t, v) {
      WrittenReads(t, v);
      assert t + [] == t;
    }
  }
}
