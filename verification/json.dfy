/** `orjson.dumps(infobox, option=orjson.OPT_SORT_KEYS)` for a string-to-string
    dictionary: a compact JSON object (section 4 of RFC 8259) with its members in
    key order, each string escaped as section 7 of RFC 8259 allows. A reader for
    the same text is the partner that every rendering is checked against. */
module Json {
  import opened Strings
  import opened Results
  import opened Dicts

  // ---------------------------------------------------------------------------
  // Strings
  // ---------------------------------------------------------------------------

  function HexDigit(n: nat): char
    requires n < 16
  {
    "0123456789abcdef"[n]
  }

  function HexValue(c: char): (r: Option<nat>)
    ensures r.Some? ==> r.value < 16
  {
    if '0' <= c <= '9' then Some((c - '0') as nat)
    else if 'a' <= c <= 'f' then Some((c - 'a') as nat + 10)
    else if 'A' <= c <= 'F' then Some((c - 'A') as nat + 10)
    else None
  }

  /** The value of four hexadecimal digits, as after `\u`. */
  function Hex4(t: seq<char>): (r: Option<nat>)
    requires |t| == 4
    ensures r.Some? ==> r.value < 0x1_0000
  {
    match (HexValue(t[0]), HexValue(t[1]), HexValue(t[2]), HexValue(t[3]))
    case (Some(a), Some(b), Some(c), Some(d)) => Some(((a * 16 + b) * 16 + c) * 16 + d)
    case _ => None
  }

  /** One character as it appears inside a JSON string: the quote, the backslash
      and the control characters are escaped, with the two-character forms where
      JSON has one; every other character stands for itself. */
  function EscapeChar(c: char): seq<char> {
    if c == '"' then "\\\""
    else if c == '\\' then "\\\\"
    else if c == '\U{0008}' then "\\b"
    else if c == '\t' then "\\t"
    else if c == '\n' then "\\n"
    else if c == '\U{000C}' then "\\f"
    else if c == '\r' then "\\r"
    else if c < '\U{0020}' then "\\u00" + [HexDigit(c as nat / 16), HexDigit(c as nat % 16)]
    else [c]
  }

  function Escape(s: seq<char>): seq<char> {
    if |s| == 0 then [] else EscapeChar(s[0]) + Escape(s[1..])
  }

  /** A JSON string literal. */
  function Quote(s: seq<char>): seq<char> {
    "\"" + Escape(s) + "\""
  }

  /** The character a two-character escape stands for. */
  function ShortEscape(c: char): Option<char> {
    if c == '"' then Some('"')
    else if c == '\\' then Some('\\')
    else if c == '/' then Some('/')
    else if c == 'b' then Some('\U{0008}')
    else if c == 't' then Some('\t')
    else if c == 'n' then Some('\n')
    else if c == 'f' then Some('\U{000C}')
    else if c == 'r' then Some('\r')
    else None
  }

  function Prepend(c: char, r: Option<(seq<char>, seq<char>)>): Option<(seq<char>, seq<char>)> {
    match r
    case None => None
    case Some((s, rest)) => Some(([c] + s, rest))
  }

  /** Reads the inside of a string literal up to its closing quote: the
      characters it stands for and the text after the quote. Unpaired escapes,
      raw control characters and surrogate escapes are rejected. */
  function ReadBody(t: seq<char>): (r: Option<(seq<char>, seq<char>)>)
    ensures r.Some? ==> |r.value.1| < |t|
    decreases |t|
  {
    if |t| == 0 then None
    else if t[0] == '"' then Some(([], t[1..]))
    else if t[0] == '\\' then
      if |t| < 2 then None
      else if t[1] == 'u' then
        if |t| < 6 then None
        else
          match Hex4(t[2..6])
          case None => None
          case Some(v) => if 0xD800 <= v < 0xE000 then None else Prepend(v as char, ReadBody(t[6..]))
      else
        match ShortEscape(t[1])
        case None => None
        case Some(c) => Prepend(c, ReadBody(t[2..]))
    else if t[0] < '\U{0020}' then None
    else Prepend(t[0], ReadBody(t[1..]))
  }

  function ReadString(t: seq<char>): (r: Option<(seq<char>, seq<char>)>)
    ensures r.Some? ==> |r.value.1| < |t|
  {
    if |t| > 0 && t[0] == '"' then ReadBody(t[1..]) else None
  }

  // ---------------------------------------------------------------------------
  // Objects
  // ---------------------------------------------------------------------------

  function Member(it: Item): seq<char> {
    Quote(it.key) + ":" + Quote(it.value)
  }

  function Members(d: Dict): seq<char>
    requires |d| > 0
  {
    if |d| == 1 then Member(d[0]) else Member(d[0]) + "," + Members(d[1..])
  }

  /** The compact rendering: no space after `:` or `,`. */
  function Render(d: Dict): seq<char> {
    if |d| == 0 then "{}" else "{" + Members(d) + "}"
  }

  function ReadMember(t: seq<char>): (r: Option<(Item, seq<char>)>)
    ensures r.Some? ==> |r.value.1| < |t|
  {
    match ReadString(t)
    case None => None
    case Some((k, r1)) =>
      if |r1| == 0 || r1[0] != ':' then None
      else
        match ReadString(r1[1..])
        case None => None
        case Some((v, r2)) => Some((Item(k, v), r2))
  }

  function ReadMembers(t: seq<char>): Option<Dict>
    decreases |t|
  {
    match ReadMember(t)
    case None => None
    case Some((it, rest)) =>
      if rest == "}" then Some([it])
      else if |rest| > 0 && rest[0] == ',' then
        match ReadMembers(rest[1..])
        case None => None
        case Some(more) => Some([it] + more)
      else None
  }

  /** Reads a compact object of string members back into its member list. */
  function ReadObject(t: seq<char>): Option<Dict> {
    if t == "{}" then Some([])
    else if |t| > 0 && t[0] == '{' then ReadMembers(t[1..])
    else None
  }

  // ---------------------------------------------------------------------------
  // Key order
  // ---------------------------------------------------------------------------

  predicate KeysIncreasing(d: Dict) {
    forall i, j :: 0 <= i < j < |d| ==> Less(d[i].key, d[j].key)
  }

  /** Puts `it` in front of the first entry whose key is not smaller. */
  function Insert(it: Item, d: Dict): (r: Dict)
    ensures |r| == |d| + 1
  {
    if |d| == 0 || !Less(d[0].key, it.key) then [it] + d
    else [d[0]] + Insert(it, d[1..])
  }

  function SortByKey(d: Dict): (r: Dict)
    ensures |r| == |d|
  {
    if |d| == 0 then [] else Insert(d[0], SortByKey(d[1..]))
  }

  /** `orjson.dumps(d, option=orjson.OPT_SORT_KEYS).decode()`. */
  function Dumps(d: Dict): seq<char> {
    Render(SortByKey(d))
  }

  // ---------------------------------------------------------------------------
  // Reading back what was written
  // ---------------------------------------------------------------------------

  lemma {:induction false} HexRoundTrip(n: nat)
    requires n < 16
    ensures HexValue(HexDigit(n)) == Some(n)
  {
  }

  /** A control character without a two-character escape comes back from its
      `\u00XX` form. */
  lemma {:induction false} ReadUnicodeEscape(c: char, t: seq<char>)
    requires c < '\U{0020}'
    ensures var e := "\\u00" + [HexDigit(c as nat / 16), HexDigit(c as nat % 16)];
      ReadBody(e + t) == Prepend(c, ReadBody(t))
  {
    var hi, lo := c as nat / 16, c as nat % 16;
    var e := "\\u00" + [HexDigit(hi), HexDigit(lo)];
    var u := e + t;
    UnicodeEscapeParts(c, e, t, u);
    assert Hex4(u[2..6]) == Some(c as nat) by {
      HexRoundTrip(hi);
      HexRoundTrip(lo);
    }
  }

  lemma {:induction false} UnicodeEscapeParts(c: char, e: seq<char>, t: seq<char>, u: seq<char>)
    requires c < '\U{0020}'
    requires e == "\\u00" + [HexDigit(c as nat / 16), HexDigit(c as nat % 16)]
    requires u == e + t
    ensures |u| >= 6 && u[0] == '\\' && u[1] == 'u' && u[6..] == t
    ensures u[2..6] == ['0', '0', HexDigit(c as nat / 16), HexDigit(c as nat % 16)]
  {
  }

  /** A character written as a two-character escape comes back. */
  lemma {:induction false} ReadShortEscape(c: char, t: seq<char>)
    requires |EscapeChar(c)| == 2
    ensures ReadBody(EscapeChar(c) + t) == Prepend(c, ReadBody(t))
  {
    var u := EscapeChar(c) + t;
    assert u[0] == '\\' && u[1] != 'u';
    assert u[2..] == t;
  }

  /** A character written as itself comes back. */
  lemma {:induction false} ReadPlainChar(c: char, t: seq<char>)
    requires |EscapeChar(c)| == 1
    ensures ReadBody(EscapeChar(c) + t) == Prepend(c, ReadBody(t))
  {
    var u := EscapeChar(c) + t;
    assert u[0] == c;
    assert u[1..] == t;
  }

  /** One escaped character is read back as that character. */
  lemma {:induction false} ReadEscapedChar(c: char, t: seq<char>)
    ensures ReadBody(EscapeChar(c) + t) == Prepend(c, ReadBody(t))
  {
    if c == '"' || c == '\\' || c == '\U{0008}' || c == '\t' || c == '\n' || c == '\U{000C}' || c == '\r' {
      ReadShortEscape(c, t);
    } else if c < '\U{0020}' {
      ReadUnicodeEscape(c, t);
    } else {
      ReadPlainChar(c, t);
    }
  }

  /** The inside of a quoted string is read back, up to and past its quote. */
  lemma {:induction false} ReadEscaped(s: seq<char>, rest: seq<char>)
    ensures ReadBody(Escape(s) + "\"" + rest) == Some((s, rest))
    decreases |s|
  {
    if |s| == 0 {
      assert Escape(s) + "\"" + rest == "\"" + rest;
    } else {
      var tail := Escape(s[1..]) + "\"" + rest;
      assert Escape(s) + "\"" + rest == EscapeChar(s[0]) + tail;
      ReadEscapedChar(s[0], tail);
      ReadEscaped(s[1..], rest);
      assert [s[0]] + s[1..] == s;
    }
  }

  lemma {:induction false} ReadQuoted(s: seq<char>, rest: seq<char>)
    ensures ReadString(Quote(s) + rest) == Some((s, rest))
  {
    assert (Quote(s) + rest)[1..] == Escape(s) + "\"" + rest;
    ReadEscaped(s, rest);
  }

  /** A key, a colon and a value make one member. */
  lemma {:induction false} ReadMemberParts(t: seq<char>, k: seq<char>, r1: seq<char>, v: seq<char>, r2: seq<char>)
    requires ReadString(t) == Some((k, r1))
    requires |r1| > 0 && r1[0] == ':'
    requires ReadString(r1[1..]) == Some((v, r2))
    ensures ReadMember(t) == Some((Item(k, v), r2))
  {
  }

  /** A member is the quoted key, then a colon and the quoted value. */
  lemma {:induction false} MemberSplit(it: Item, rest: seq<char>, after: seq<char>)
    requires after == ":" + Quote(it.value) + rest
    ensures Member(it) + rest == Quote(it.key) + after
    ensures |after| > 0 && after[0] == ':' && after[1..] == Quote(it.value) + rest
  {
  }

  lemma {:induction false} ReadMemberBack(it: Item, rest: seq<char>)
    ensures ReadMember(Member(it) + rest) == Some((it, rest))
  {
    var after := ":" + Quote(it.value) + rest;
    var t := Member(it) + rest;
    MemberSplit(it, rest, after);
    ReadQuoted(it.key, after);
    ReadQuoted(it.value, rest);
    ReadMemberParts(t, it.key, after, it.value, rest);
  }

  lemma {:induction false} ReadLastMember(it: Item)
    ensures ReadMembers(Member(it) + "}") == Some([it])
  {
    ReadMemberBack(it, "}");
  }

  lemma {:induction false} ReadNextMember(it: Item, tail: seq<char>, more: Dict)
    requires ReadMembers(tail) == Some(more)
    ensures ReadMembers(Member(it) + "," + tail) == Some([it] + more)
  {
    var rest := "," + tail;
    assert Member(it) + "," + tail == Member(it) + rest;
    ReadMemberBack(it, rest);
    assert rest[1..] == tail;
  }

  lemma {:induction false} MembersCons(d: Dict)
    requires |d| > 1
    ensures Members(d) + "}" == Member(d[0]) + "," + (Members(d[1..]) + "}")
  {
  }

  lemma {:induction false} ReadMembersStep(d: Dict)
    requires |d| > 1
    requires ReadMembers(Members(d[1..]) + "}") == Some(d[1..])
    ensures ReadMembers(Members(d) + "}") == Some(d)
  {
    MembersCons(d);
    ReadNextMember(d[0], Members(d[1..]) + "}", d[1..]);
    assert [d[0]] + d[1..] == d;
  }

  lemma {:induction false} ReadMembersBack(d: Dict)
    requires |d| > 0
    ensures ReadMembers(Members(d) + "}") == Some(d)
    decreases |d|
  {
    if |d| == 1 {
      ReadLastMember(d[0]);
      assert [d[0]] == d;
    } else {
      ReadMembersBack(d[1..]);
      ReadMembersStep(d);
    }
  }

  /** Text between braces that starts with a quote is not the empty object. */
  lemma {:induction false} BraceSplit(m: seq<char>, t: seq<char>)
    requires |m| > 0 && m[0] == '"' && t == "{" + m + "}"
    ensures t != "{}" && |t| > 0 && t[0] == '{' && t[1..] == m + "}"
  {
    assert t[1] == m[0];
  }

  lemma {:induction false} FirstOfConcat(a: seq<char>, b: seq<char>)
    requires |a| > 0
    ensures |a + b| > 0 && (a + b)[0] == a[0]
  {
  }

  lemma {:induction false} MemberStartsQuoted(it: Item)
    ensures |Member(it)| > 0 && Member(it)[0] == '"'
  {
    FirstOfConcat("\"", Escape(it.key));
    FirstOfConcat("\"" + Escape(it.key), "\"");
    FirstOfConcat(Quote(it.key), ":");
    FirstOfConcat(Quote(it.key) + ":", Quote(it.value));
  }

  lemma {:induction false} MembersStartQuoted(d: Dict)
    requires |d| > 0
    ensures |Members(d)| > 0 && Members(d)[0] == '"'
  {
    MemberStartsQuoted(d[0]);
    if |d| > 1 {
      FirstOfConcat(Member(d[0]), ",");
      FirstOfConcat(Member(d[0]) + ",", Members(d[1..]));
    }
  }

  /** A non-empty object is its brace, its members and the closing brace. */
  lemma {:induction false} RenderSplit(d: Dict, t: seq<char>)
    requires |d| > 0 && t == Render(d)
    ensures t != "{}" && |t| > 0 && t[0] == '{' && t[1..] == Members(d) + "}"
  {
    MembersStartQuoted(d);
    BraceSplit(Members(d), t);
  }

  /** Every rendered object reads back as the same members in the same order. */
  lemma {:induction false} RenderRoundTrip(d: Dict)
    ensures ReadObject(Render(d)) == Some(d)
  {
    if |d| > 0 {
      RenderSplit(d, Render(d));
      ReadMembersBack(d);
    }
  }

  // ---------------------------------------------------------------------------
  // Sorting by key
  // ---------------------------------------------------------------------------

  lemma {:induction false} InsertCount(it: Item, d: Dict)
    ensures multiset(Insert(it, d)) == multiset(d) + multiset{it}
    decreases |d|
  {
    if |d| > 0 && Less(d[0].key, it.key) {
      InsertCount(it, d[1..]);
      assert d == [d[0]] + d[1..];
    }
  }

  /** Inserting a new key into key-ordered entries keeps them key-ordered. */
  lemma {:induction false} InsertIncreasing(it: Item, d: Dict)
    requires KeysIncreasing(d)
    requires forall i :: 0 <= i < |d| ==> d[i].key != it.key
    ensures KeysIncreasing(Insert(it, d))
    decreases |d|
  {
    var r := Insert(it, d);
    if |d| == 0 {
    } else if !Less(d[0].key, it.key) {
      LessTrichotomy(d[0].key, it.key);
      forall j | 1 <= j < |r| ensures Less(it.key, r[j].key) {
        if j > 1 {
          LessTransitive(it.key, d[0].key, d[j - 1].key);
        }
      }
    } else {
      var rest := Insert(it, d[1..]);
      InsertIncreasing(it, d[1..]);
      InsertCount(it, d[1..]);
      forall j | 0 <= j < |rest| ensures Less(d[0].key, rest[j].key) {
        assert rest[j] in multiset(d[1..]) + multiset{it};
        if rest[j] != it {
          var k :| 0 <= k < |d[1..]| && d[1..][k] == rest[j];
          assert d[k + 1] == rest[j];
        }
      }
    }
  }

  /** Sorting keeps every entry. */
  lemma {:induction false} SortByKeyCount(d: Dict)
    ensures multiset(SortByKey(d)) == multiset(d)
    decreases |d|
  {
    if |d| > 0 {
      SortByKeyCount(d[1..]);
      InsertCount(d[0], SortByKey(d[1..]));
      assert d == [d[0]] + d[1..];
    }
  }

  /** Sorting orders distinct keys strictly. */
  lemma {:induction false} SortByKeyIncreasing(d: Dict)
    requires DistinctKeys(d)
    ensures KeysIncreasing(SortByKey(d))
    decreases |d|
  {
    if |d| > 0 {
      var tail := d[1..];
      var rest := SortByKey(tail);
      SortByKeyIncreasing(tail);
      SortByKeyCount(tail);
      forall i | 0 <= i < |rest| ensures rest[i].key != d[0].key {
        assert rest[i] in multiset(tail);
        var k :| 0 <= k < |tail| && tail[k] == rest[i];
        assert d[k + 1] == rest[i];
      }
      InsertIncreasing(d[0], rest);
    }
  }

  /** The smallest key comes first in any key-ordered arrangement. */
  lemma {:induction false} SortedHeads(a: Dict, b: Dict)
    requires KeysIncreasing(a) && KeysIncreasing(b) && multiset(a) == multiset(b)
    requires |a| > 0 && |b| > 0
    ensures a[0] == b[0]
  {
    assert a[0] in multiset(b) && b[0] in multiset(a);
    var j :| 0 <= j < |b| && b[j] == a[0];
    var i :| 0 <= i < |a| && a[i] == b[0];
    if j > 0 && i > 0 {
      LessAsymmetric(a[0].key, a[i].key);
      assert false;
    } else if j > 0 {
      LessIrreflexive(b[0].key);
      assert false;
    }
  }

  lemma {:induction false} Cancel(x: Item, ma: multiset<Item>, mb: multiset<Item>)
    requires multiset{x} + ma == multiset{x} + mb
    ensures ma == mb
  {
    forall y ensures ma[y] == mb[y] {
      assert (multiset{x} + ma)[y] == (multiset{x} + mb)[y];
    }
  }

  /** Behind equal first entries, key-ordered lists with the same entries
      continue with the same entries. */
  lemma {:induction false} SortedTails(a: Dict, b: Dict)
    requires KeysIncreasing(a) && KeysIncreasing(b) && multiset(a) == multiset(b)
    requires |a| > 0 && |b| > 0 && a[0] == b[0]
    ensures KeysIncreasing(a[1..]) && KeysIncreasing(b[1..])
    ensures multiset(a[1..]) == multiset(b[1..])
  {
    assert a == [a[0]] + a[1..] && b == [b[0]] + b[1..];
    Cancel(a[0], multiset(a[1..]), multiset(b[1..]));
  }

  /** Key-ordered lists with the same entries are the same list. */
  lemma {:induction false} SortedUnique(a: Dict, b: Dict)
    requires KeysIncreasing(a) && KeysIncreasing(b) && multiset(a) == multiset(b)
    ensures a == b
    decreases |a|
  {
    assert |a| == |multiset(a)| == |b|;
    if |a| > 0 {
      SortedHeads(a, b);
      SortedTails(a, b);
      SortedUnique(a[1..], b[1..]);
      assert a == [a[0]] + a[1..] && b == [b[0]] + b[1..];
    }
  }

  /** `OPT_SORT_KEYS` makes the text depend only on the entries, not on the
      order the rows wrote them in. */
  lemma {:induction false} DumpsCanonical(d1: Dict, d2: Dict)
    requires DistinctKeys(d1) && DistinctKeys(d2) && multiset(d1) == multiset(d2)
    ensures Dumps(d1) == Dumps(d2)
  {
    SortByKeyCount(d1);
    SortByKeyCount(d2);
    SortByKeyIncreasing(d1);
    SortByKeyIncreasing(d2);
    SortedUnique(SortByKey(d1), SortByKey(d2));
  }

  /** The JSON text reads back as the dictionary's entries in strictly
      increasing key order. */
  lemma {:induction false} DumpsSpec(d: Dict)
    requires DistinctKeys(d)
    ensures ReadObject(Dumps(d)) == Some(SortByKey(d))
    ensures KeysIncreasing(SortByKey(d)) && multiset(SortByKey(d)) == multiset(d)
  {
    RenderRoundTrip(SortByKey(d));
    SortByKeyCount(d);
    SortByKeyIncreasing(d);
  }
}
