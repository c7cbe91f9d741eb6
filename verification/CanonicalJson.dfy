/**
 Canonical JSON text: object keys sorted by UTF-16 code units, undefined members
 dropped, strings escaped as in section 7 of RFC 8259 (with the short escapes,
 and lone surrogates escaped). Two values print the same text exactly when they
 are equal up to member order and undefined members.
 */
module CanonicalJson {
  import opened Basics
  import opened Utf8

  /** A finite number is its printed token, of which number printing never makes two. */
  datatype Json =
    | JNull
    | JBool(b: bool)
    | JNumber(token: Text)
    | JString(s: Text)
    | JArray(items: seq<Json>)
    | JObject(members: seq<Member>)

  /** Object members come in insertion order; a member may be undefined. */
  datatype Member = Member(key: Text, value: Option<Json>)

  const QUOTE: Unit := 34
  const COMMA: Unit := 44
  const COLON: Unit := 58
  const LBRACKET: Unit := 91
  const BACKSLASH: Unit := 92
  const RBRACKET: Unit := 93
  const LBRACE: Unit := 123
  const RBRACE: Unit := 125
  const NULL_TEXT: Text := [110, 117, 108, 108]
  const TRUE_TEXT: Text := [116, 114, 117, 101]
  const FALSE_TEXT: Text := [102, 97, 108, 115, 101]

  predicate NumberUnit(u: Unit) { 48 <= u <= 57 || u == 43 || u == 45 || u == 46 || u == 69 || u == 101 }

  predicate ValidNumber(token: Text) { token != [] && forall k | 0 <= k < |token| :: NumberUnit(token[k]) }

  predicate DistinctKeys(members: seq<Member>) {
    forall i, j | 0 <= i < j < |members| :: members[i].key != members[j].key
  }

  /** The values the printer is used on: number tokens are numbers, keys are distinct. */
  predicate WellFormed(v: Json) {
    match v
    case JNumber(token) => ValidNumber(token)
    case JArray(items) => forall k | 0 <= k < |items| :: WellFormed(items[k])
    case JObject(members) =>
      && DistinctKeys(members)
      && forall k | 0 <= k < |members| && members[k].value.Some? :: WellFormed(members[k].value.value)
    case _ => true
  }

  // ---------- Strings ----------

  function HexUnit(d: int): Unit
    requires 0 <= d < 16
  {
    if d < 10 then 48 + d else 87 + d
  }

  function Hex4(u: Unit): Text {
    [HexUnit(u / 16 / 16 / 16), HexUnit(u / 16 / 16 % 16), HexUnit(u / 16 % 16), HexUnit(u % 16)]
  }

  function EscapeUnit(u: Unit): Text {
    if u == QUOTE || u == BACKSLASH then [BACKSLASH, u]
    else if u == 8 then [BACKSLASH, 98]
    else if u == 9 then [BACKSLASH, 116]
    else if u == 10 then [BACKSLASH, 110]
    else if u == 12 then [BACKSLASH, 102]
    else if u == 13 then [BACKSLASH, 114]
    else if u < 32 || HighSurrogate(u) || LowSurrogate(u) then [BACKSLASH, 117] + Hex4(u)
    else [u]
  }

  function Escape(s: Text): Text {
    if s == [] then []
    else if StartsWithPair(s) then s[..2] + Escape(s[2..])
    else EscapeUnit(s[0]) + Escape(s[1..])
  }

  function PrintString(s: Text): Text { [QUOTE] + Escape(s) + [QUOTE] }

  // ---------- Key order ----------

  predicate LexLess(a: Text, b: Text) {
    if b == [] then false
    else if a == [] then true
    else a[0] < b[0] || (a[0] == b[0] && LexLess(a[1..], b[1..]))
  }

  datatype Entry<T> = Entry(key: Text, item: T)

  function Insert<T>(e: Entry<T>, sorted: seq<Entry<T>>): seq<Entry<T>> {
    if sorted == [] || LexLess(e.key, sorted[0].key) then [e] + sorted
    else [sorted[0]] + Insert(e, sorted[1..])
  }

  function SortByKey<T>(entries: seq<Entry<T>>): seq<Entry<T>> {
    if entries == [] then [] else Insert(entries[0], SortByKey(entries[1..]))
  }

  // ---------- The printer ----------

  function Join(parts: seq<Text>): Text {
    if parts == [] then []
    else if |parts| == 1 then parts[0]
    else parts[0] + [COMMA] + Join(parts[1..])
  }

  function MemberTexts(entries: seq<Entry<Text>>): seq<Text> {
    if entries == [] then []
    else [PrintString(entries[0].key) + [COLON] + entries[0].item] + MemberTexts(entries[1..])
  }

  function Print(v: Json): Text
    decreases v, 1
  {
    match v
    case JNull => NULL_TEXT
    case JBool(b) => if b then TRUE_TEXT else FALSE_TEXT
    case JNumber(token) => token
    case JString(s) => PrintString(s)
    case JArray(items) => [LBRACKET] + Join(PrintItems(items)) + [RBRACKET]
    case JObject(members) => [LBRACE] + Join(MemberTexts(SortByKey(PrintMembers(members)))) + [RBRACE]
  }

  function PrintItems(items: seq<Json>): (texts: seq<Text>)
    ensures |texts| == |items|
    ensures forall k | 0 <= k < |items| :: texts[k] == Print(items[k])
    decreases items, 0
  {
    if items == [] then [] else [Print(items[0])] + PrintItems(items[1..])
  }

  /** The defined members with their printed values. */
  function PrintMembers(members: seq<Member>): seq<Entry<Text>>
    decreases members, 0
  {
    if members == [] then []
    else (if members[0].value.Some? then [Entry(members[0].key, Print(members[0].value.value))] else []) +
         PrintMembers(members[1..])
  }

  // ---------- Equality up to member order and undefined members ----------

  /** The value under a key; an undefined member reads like a missing one. */
  function Lookup(members: seq<Member>, key: Text): (r: Option<Json>)
    ensures r.Some? ==> exists k :: 0 <= k < |members| && members[k] == Member(key, r)
  {
    if members == [] then None
    else if members[0].key == key then members[0].value
    else
      assert forall k | 0 < k < |members| :: members[k] == members[1..][k - 1];
      Lookup(members[1..], key)
  }

  predicate Equivalent(a: Json, b: Json)
    decreases a
  {
    match (a, b)
    case (JArray(xs), JArray(ys)) => |xs| == |ys| && forall k | 0 <= k < |xs| :: Equivalent(xs[k], ys[k])
    case (JObject(ms), JObject(ns)) =>
      && (forall i | 0 <= i < |ms| && ms[i].value.Some? ::
            var other := Lookup(ns, ms[i].key);
            other.Some? && Equivalent(ms[i].value.value, other.value))
      && (forall j | 0 <= j < |ns| && ns[j].value.Some? :: Lookup(ms, ns[j].key).Some?)
    case _ => a == b
  }

  /** The representative of an equivalence class: members sorted, none undefined. */
  function Canon(v: Json): Json
    decreases v, 1
  {
    match v
    case JArray(items) => JArray(CanonItems(items))
    case JObject(members) => JObject(AsMembers(SortByKey(CanonMembers(members))))
    case _ => v
  }

  function CanonItems(items: seq<Json>): (r: seq<Json>)
    ensures |r| == |items|
    ensures forall k | 0 <= k < |items| :: r[k] == Canon(items[k])
    decreases items, 0
  {
    if items == [] then [] else [Canon(items[0])] + CanonItems(items[1..])
  }

  function CanonMembers(members: seq<Member>): seq<Entry<Json>>
    decreases members, 0
  {
    if members == [] then []
    else (if members[0].value.Some? then [Entry(members[0].key, Canon(members[0].value.value))] else []) +
         CanonMembers(members[1..])
  }

  function AsMembers(entries: seq<Entry<Json>>): (members: seq<Member>)
    ensures |members| == |entries|
    ensures forall k | 0 <= k < |entries| :: members[k] == Member(entries[k].key, Some(entries[k].item))
  {
    if entries == [] then [] else [Member(entries[0].key, Some(entries[0].item))] + AsMembers(entries[1..])
  }

  // ---------- The reader of compact JSON text ----------

  function FromHex(u: Unit): (r: Option<int>)
    ensures r.Some? ==> 0 <= r.value < 16
  {
    if 48 <= u <= 57 then Some(u - 48)
    else if 97 <= u <= 102 then Some(u - 87)
    else if 65 <= u <= 70 then Some(u - 55)
    else None
  }

  /** The unit written by a `\u` escape. */
  function ReadHex4(t: Text): (r: Option<Unit>)
    ensures r.Some? ==> |t| >= 4
  {
    if |t| < 4 then None
    else match (FromHex(t[0]), FromHex(t[1]), FromHex(t[2]), FromHex(t[3]))
      case (Some(a), Some(b), Some(c), Some(d)) => Some(a * 4096 + b * 256 + c * 16 + d)
      case _ => None
  }

  function ShortEscape(u: Unit): Option<Unit> {
    if u == QUOTE || u == BACKSLASH || u == 47 then Some(u)
    else if u == 98 then Some(8)
    else if u == 116 then Some(9)
    else if u == 110 then Some(10)
    else if u == 102 then Some(12)
    else if u == 114 then Some(13)
    else None
  }

  /** The rest of a string after its opening quote. */
  function ReadString(t: Text): (r: Option<(Text, Text)>)
    ensures r.Some? ==> |r.value.1| < |t|
  {
    if t == [] || t[0] < 32 then None
    else if t[0] == QUOTE then Some(([], t[1..]))
    else if t[0] != BACKSLASH then Prepend(t[0], ReadString(t[1..]))
    else if |t| > 1 && ShortEscape(t[1]).Some? then Prepend(ShortEscape(t[1]).value, ReadString(t[2..]))
    else if |t| > 1 && t[1] == 117 && ReadHex4(t[2..]).Some? then Prepend(ReadHex4(t[2..]).value, ReadString(t[6..]))
    else None
  }

  function Prepend(u: Unit, r: Option<(Text, Text)>): Option<(Text, Text)> {
    match r
    case Some(pair) => Some(([u] + pair.0, pair.1))
    case None => None
  }

  function NumberLength(t: Text): (n: nat)
    ensures n <= |t|
    ensures forall k | 0 <= k < n :: NumberUnit(t[k])
  {
    if t == [] || !NumberUnit(t[0]) then 0 else 1 + NumberLength(t[1..])
  }

  function ReadValue(t: Text): (r: Option<(Json, Text)>)
    ensures r.Some? ==> |r.value.1| < |t|
    decreases |t|, 1
  {
    if t == [] then None
    else if t[0] == QUOTE then
      match ReadString(t[1..])
      case Some(pair) => Some((JString(pair.0), pair.1))
      case None => None
    else if t[0] == LBRACKET then
      if |t| > 1 && t[1] == RBRACKET then Some((JArray([]), t[2..]))
      else match ReadItems(t[1..])
        case Some(pair) => Some((JArray(pair.0), pair.1))
        case None => None
    else if t[0] == LBRACE then
      if |t| > 1 && t[1] == RBRACE then Some((JObject([]), t[2..]))
      else match ReadMembers(t[1..])
        case Some(pair) => Some((JObject(pair.0), pair.1))
        case None => None
    else if NULL_TEXT <= t then Some((JNull, t[4..]))
    else if TRUE_TEXT <= t then Some((JBool(true), t[4..]))
    else if FALSE_TEXT <= t then Some((JBool(false), t[5..]))
    else if NumberUnit(t[0]) then Some((JNumber(t[..NumberLength(t)]), t[NumberLength(t)..]))
    else None
  }

  function ReadItems(t: Text): (r: Option<(seq<Json>, Text)>)
    ensures r.Some? ==> |r.value.1| < |t|
    decreases |t|, 2
  {
    match ReadValue(t)
    case None => None
    case Some(first) =>
      if first.1 == [] then None
      else if first.1[0] == RBRACKET then Some(([first.0], first.1[1..]))
      else if first.1[0] != COMMA then None
      else match ReadItems(first.1[1..])
        case Some(pair) => Some(([first.0] + pair.0, pair.1))
        case None => None
  }

  function ReadMember(t: Text): (r: Option<(Member, Text)>)
    ensures r.Some? ==> |r.value.1| < |t|
    decreases |t|, 2
  {
    if t == [] || t[0] != QUOTE then None
    else match ReadString(t[1..])
      case None => None
      case Some(key) =>
        if key.1 == [] || key.1[0] != COLON then None
        else match ReadValue(key.1[1..])
          case None => None
          case Some(value) => Some((Member(key.0, Some(value.0)), value.1))
  }

  function ReadMembers(t: Text): (r: Option<(seq<Member>, Text)>)
    ensures r.Some? ==> |r.value.1| < |t|
    decreases |t|, 3
  {
    match ReadMember(t)
    case None => None
    case Some(first) =>
      if first.1 == [] then None
      else if first.1[0] == RBRACE then Some(([first.0], first.1[1..]))
      else if first.1[0] != COMMA then None
      else match ReadMembers(first.1[1..])
        case Some(pair) => Some(([first.0] + pair.0, pair.1))
        case None => None
  }

  function Read(t: Text): Option<Json> {
    match ReadValue(t)
    case Some(pair) => if pair.1 == [] then Some(pair.0) else None
    case None => None
  }
}
