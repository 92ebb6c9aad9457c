/**
 * The string encoding of a MATCHING answer: a flat JSON object whose
 * members are all strings (objects: section 4 of RFC 8259; strings:
 * section 7 of RFC 8259), written the way `JSON.stringify` writes it and
 * read the way `JSON.parse` reads it (components/ExamPaper.tsx:30-38 and
 * 146-150).
 *
 * Members are kept in insertion order. Every property is stated pointwise
 * through `Get`, i.e. about the key-to-value map the object stands for.
 * The decoder accepts only objects whose members are strings; any other
 * text, including valid JSON that is not such an object, decodes to `None`.
 */
module MatchingCodec {
  import opened Wrappers

  /** One member of an object: a name and its string value. */
  datatype Member = Member(name: string, value: string)

  /** A flat object, members in the order their names were first assigned. */
  type Object = seq<Member>

  predicate HasName(o: Object, k: string)
  {
    exists i :: 0 <= i < |o| && o[i].name == k
  }

  predicate UniqueNames(o: Object)
  {
    forall i, j :: 0 <= i < j < |o| ==> o[i].name != o[j].name
  }

  /** A non-empty object has a property `k` exactly when its head or its tail does. */
  lemma HasNameCons(o: Object, k: string)
    requires o != []
    ensures HasName(o, k) <==> o[0].name == k || HasName(o[1..], k)
  {
    if HasName(o, k) && o[0].name != k {
      var i :| 0 <= i < |o| && o[i].name == k;
      assert o[1..][i - 1].name == k;
    }
    if HasName(o[1..], k) {
      var i :| 0 <= i < |o[1..]| && o[1..][i].name == k;
      assert o[i + 1].name == k;
    }
  }

  /** The value of property `k` (`o[k]`), or `None` when `o` has no such property. */
  function Get(o: Object, k: string): (r: Option<string>)
    ensures r.None? <==> !HasName(o, k)
    ensures r.Some? ==> Member(k, r.value) in o
  {
    if o == [] then None
    else if o[0].name == k then Some(o[0].value)
    else
      HasNameCons(o, k);
      Get(o[1..], k)
  }

  /**
   * Property assignment `o[k] = v`: an existing property keeps its place and
   * takes the new value; a new one is added at the end.
   */
  function Put(o: Object, k: string, v: string): (r: Object)
    ensures HasName(o, k) ==> |r| == |o|
    ensures !HasName(o, k) ==> r == o + [Member(k, v)]
    ensures forall i :: 0 <= i < |o| ==> r[i].name == o[i].name
    ensures forall i :: 0 <= i < |o| && o[i].name != k ==> r[i] == o[i]
  {
    if o == [] then [Member(k, v)]
    else if o[0].name == k then
      HasNameCons(o, k);
      [Member(k, v)] + o[1..]
    else
      HasNameCons(o, k);
      var tail := Put(o[1..], k, v);
      var r := [o[0]] + tail;
      assert forall i :: 1 <= i < |r| ==> r[i] == tail[i - 1];
      r
  }

  /** After `o[k] = v`, property `k` reads `v` and every other property reads as before. */
  lemma {:induction false} GetAfterPut(o: Object, k: string, v: string, k': string)
    ensures Get(Put(o, k, v), k') == if k' == k then Some(v) else Get(o, k')
  {
    if o != [] {
      var r := Put(o, k, v);
      if o[0].name == k {
        assert r[1..] == o[1..];
      } else {
        GetAfterPut(o[1..], k, v, k');
        assert r[0] == o[0] && r[1..] == Put(o[1..], k, v);
      }
    }
  }

  /** Assigning keeps the names of an object distinct. */
  lemma PutKeepsNamesUnique(o: Object, k: string, v: string)
    requires UniqueNames(o)
    ensures UniqueNames(Put(o, k, v))
  {
    var r := Put(o, k, v);
    forall i, j | 0 <= i < j < |r| ensures r[i].name != r[j].name {
      if j == |o| {
        assert r[j].name == k && !HasName(o, k);
        assert o[i].name != k;
      }
    }
  }

  /** Assigning the same value twice is the same as assigning it once. */
  lemma {:induction false} PutIdempotent(o: Object, k: string, v: string)
    ensures Put(Put(o, k, v), k, v) == Put(o, k, v)
  {
    if o == [] {
    } else if o[0].name == k {
    } else {
      PutIdempotent(o[1..], k, v);
      assert Put(o, k, v)[1..] == Put(o[1..], k, v);
    }
  }

  /**
   * The object `JSON.parse` builds from the members in the order it reads
   * them: each member is assigned in turn, so a repeated name keeps its
   * first position and its last value.
   */
  function Collect(raw: seq<Member>): (o: Object)
    ensures UniqueNames(o)
  {
    if raw == [] then []
    else
      var last := raw[|raw| - 1];
      var prefix := Collect(raw[..|raw| - 1]);
      PutKeepsNamesUnique(prefix, last.name, last.value);
      Put(prefix, last.name, last.value)
  }

  /** Reading back an object with distinct names rebuilds it exactly. */
  lemma {:induction false} CollectUnique(o: Object)
    requires UniqueNames(o)
    ensures Collect(o) == o
  {
    if o != [] {
      var n := |o|;
      var prefix := o[..n - 1];
      CollectUnique(prefix);
      assert !HasName(prefix, o[n - 1].name) by {
        forall i | 0 <= i < |prefix| ensures prefix[i].name != o[n - 1].name {
          assert prefix[i] == o[i];
        }
      }
      calc {
        Collect(o);
        Put(Collect(prefix), o[n - 1].name, o[n - 1].value);
        Put(prefix, o[n - 1].name, o[n - 1].value);
        prefix + [Member(o[n - 1].name, o[n - 1].value)];
        o;
      }
    }
  }

  // ---------------------------------------------------------------- encoder

  /** A lower-case hexadecimal digit, as `JSON.stringify` writes them. */
  function HexDigit(d: nat): (c: char)
    requires d < 16
  {
    if d < 10 then (48 + d) as char else (87 + d) as char
  }

  /** The escape `JSON.stringify` uses for one character of a string. */
  function EscapeChar(c: char): string
  {
    var n := c as int;
    if c == '"' then ['\\', '"']
    else if c == '\\' then ['\\', '\\']
    else if n == 8 then ['\\', 'b']
    else if n == 9 then ['\\', 't']
    else if n == 10 then ['\\', 'n']
    else if n == 12 then ['\\', 'f']
    else if n == 13 then ['\\', 'r']
    else if n < 32 then ['\\', 'u', '0', '0', HexDigit(n / 16), HexDigit(n % 16)]
    else [c]
  }

  function Escape(s: string): string
  {
    if s == [] then [] else EscapeChar(s[0]) + Escape(s[1..])
  }

  /** A JSON string literal for `s`. */
  function Quote(s: string): string
  {
    ['"'] + Escape(s) + ['"']
  }

  function EncodeMember(m: Member): string
  {
    Quote(m.name) + [':'] + Quote(m.value)
  }

  function EncodeMembers(o: Object): string
  {
    if o == [] then []
    else if |o| == 1 then EncodeMember(o[0])
    else EncodeMember(o[0]) + [','] + EncodeMembers(o[1..])
  }

  /** `JSON.stringify` of a flat object: no whitespace, members in order. */
  function Encode(o: Object): (s: string)
    ensures |s| >= 2 && s[0] == '{' && s[|s| - 1] == '}'
  {
    ['{'] + EncodeMembers(o) + ['}']
  }

  // ---------------------------------------------------------------- decoder

  /** The four whitespace characters JSON allows between tokens. */
  predicate IsWs(c: char)
  {
    c == ' ' || c == '\t' || c == '\n' || c == '\r'
  }

  function SkipWs(s: string): (r: string)
    ensures |r| <= |s|
    ensures r == [] || !IsWs(r[0])
    ensures (s == [] || !IsWs(s[0])) ==> r == s
  {
    if s != [] && IsWs(s[0]) then SkipWs(s[1..]) else s
  }

  /** The value of a hexadecimal digit of either case. */
  function HexValue(c: char): (r: Option<nat>)
    ensures r.Some? ==> r.value < 16
  {
    if '0' <= c <= '9' then Some(c as int - 48)
    else if 'a' <= c <= 'f' then Some(c as int - 87)
    else if 'A' <= c <= 'F' then Some(c as int - 55)
    else None
  }

  /** The code unit written by the four hexadecimal digits that start `s`. */
  function Hex4(s: string): (r: Option<nat>)
    ensures r.Some? ==> |s| >= 4 && r.value < 0x10000
  {
    if |s| < 4 then None
    else match (HexValue(s[0]), HexValue(s[1]), HexValue(s[2]), HexValue(s[3]))
      case (Some(a), Some(b), Some(c), Some(d)) => Some(a * 4096 + b * 256 + c * 16 + d)
      case _ => None
  }

  /**
   * The character written by `\u` followed by `s`. A surrogate pair
   * `\uD8xx\uDCxx` gives one character; a lone surrogate has no `char`
   * and is refused.
   */
  function ParseUnicodeEscape(s: string): (r: Option<(char, string)>)
    ensures r.Some? ==> |r.value.1| < |s|
  {
    match Hex4(s)
    case None => None
    case Some(hi) =>
      if hi < 0xD800 || 0xE000 <= hi then Some((hi as char, s[4..]))
      else if 0xDC00 <= hi then None
      else
        var t := s[4..];
        if |t| < 2 || t[0] != '\\' || t[1] != 'u' then None
        else match Hex4(t[2..])
          case None => None
          case Some(lo) =>
            if lo < 0xDC00 || 0xE000 <= lo then None
            else Some(((0x10000 + (hi - 0xD800) * 0x400 + (lo - 0xDC00)) as char, t[6..]))
  }

  /** The character written by a backslash followed by `s`. */
  function ParseEscape(s: string): (r: Option<(char, string)>)
    ensures r.Some? ==> |r.value.1| < |s|
  {
    if s == [] then None
    else if s[0] == '"' then Some(('"', s[1..]))
    else if s[0] == '\\' then Some(('\\', s[1..]))
    else if s[0] == '/' then Some(('/', s[1..]))
    else if s[0] == 'b' then Some((8 as char, s[1..]))
    else if s[0] == 'f' then Some((12 as char, s[1..]))
    else if s[0] == 'n' then Some(('\n', s[1..]))
    else if s[0] == 'r' then Some(('\r', s[1..]))
    else if s[0] == 't' then Some(('\t', s[1..]))
    else if s[0] == 'u' then ParseUnicodeEscape(s[1..])
    else None
  }

  /** One character inside a string literal; an unescaped control character is refused. */
  function ParseChar(s: string): (r: Option<(char, string)>)
    ensures r.Some? ==> |r.value.1| < |s|
  {
    if s == [] then None
    else if s[0] == '\\' then ParseEscape(s[1..])
    else if s[0] == '"' || (s[0] as int) < 32 then None
    else Some((s[0], s[1..]))
  }

  /** The rest of a string literal after its opening quote, and what follows the closing one. */
  function ParseStringBody(s: string): (r: Option<(string, string)>)
    ensures r.Some? ==> |r.value.1| < |s|
    decreases |s|
  {
    if s == [] then None
    else if s[0] == '"' then Some(([], s[1..]))
    else match ParseChar(s)
      case None => None
      case Some((c, rest)) =>
        match ParseStringBody(rest)
        case None => None
        case Some((t, after)) => Some(([c] + t, after))
  }

  /** `"name" : "value"` starting at `s[0]`; any value that is not a string is refused. */
  function ParseMember(s: string): (r: Option<(Member, string)>)
    ensures r.Some? ==> |r.value.1| < |s|
  {
    if s == [] || s[0] != '"' then None
    else match ParseStringBody(s[1..])
      case None => None
      case Some((name, r1)) =>
        var r2 := SkipWs(r1);
        if r2 == [] || r2[0] != ':' then None
        else
          var r3 := SkipWs(r2[1..]);
          if r3 == [] || r3[0] != '"' then None
          else match ParseStringBody(r3[1..])
            case None => None
            case Some((value, r4)) => Some((Member(name, value), r4))
  }

  /** One or more members separated by commas, up to and including the closing brace. */
  function ParseMembers(s: string): (r: Option<(seq<Member>, string)>)
    ensures r.Some? ==> |r.value.1| < |s|
    decreases |s|
  {
    match ParseMember(s)
    case None => None
    case Some((m, r1)) =>
      var r2 := SkipWs(r1);
      if r2 == [] then None
      else if r2[0] == '}' then Some(([m], r2[1..]))
      else if r2[0] == ',' then
        match ParseMembers(SkipWs(r2[1..]))
        case None => None
        case Some((ms, r3)) => Some(([m] + ms, r3))
      else None
  }

  /** An object's members in the order written, and the text after its closing brace. */
  function ParseObject(s: string): (r: Option<(seq<Member>, string)>)
  {
    var r := SkipWs(s);
    if r == [] || r[0] != '{' then None
    else
      var r1 := SkipWs(r[1..]);
      if r1 != [] && r1[0] == '}' then Some(([], r1[1..]))
      else ParseMembers(r1)
  }

  /** `JSON.parse` restricted to flat objects whose members are strings. */
  function Decode(s: string): (r: Option<Object>)
    ensures r.Some? ==> UniqueNames(r.value)
    ensures (SkipWs(s) == [] || SkipWs(s)[0] != '{') ==> r.None?
  {
    match ParseObject(s)
    case None => None
    case Some((raw, rest)) => if SkipWs(rest) == [] then Some(Collect(raw)) else None
  }

  // ------------------------------------------------------------- round trip

  lemma HexDigitValue(d: nat)
    requires d < 16
    ensures HexValue(HexDigit(d)) == Some(d)
  {
  }

  /** Every escape the encoder writes reads back as the character it stands for. */
  lemma ParseEscapedChar(c: char, t: string)
    ensures EscapeChar(c)[0] != '"'
    ensures ParseChar(EscapeChar(c) + t) == Some((c, t))
  {
    var n := c as int;
    var e := EscapeChar(c);
    if c == '"' || c == '\\' || n == 8 || n == 9 || n == 10 || n == 12 || n == 13 {
      assert (e + t)[1..] == [e[1]] + t;
    } else if n < 32 {
      HexDigitValue(n / 16);
      HexDigitValue(n % 16);
      var u := (e + t)[2..];
      assert u == ['0', '0', HexDigit(n / 16), HexDigit(n % 16)] + t;
      assert Hex4(u) == Some(n);
      assert u[4..] == t;
    } else {
      assert (e + t)[1..] == t;
    }
  }

  /** A string literal written by the encoder reads back as the original string. */
  lemma {:induction false} ParseEscapedString(s: string, t: string)
    ensures ParseStringBody(Escape(s) + ['"'] + t) == Some((s, t))
  {
    if s == [] {
      assert Escape(s) + ['"'] + t == ['"'] + t;
    } else {
      var e := EscapeChar(s[0]);
      var tail := Escape(s[1..]) + ['"'] + t;
      assert Escape(s) + ['"'] + t == e + tail;
      ParseEscapedChar(s[0], tail);
      ParseEscapedString(s[1..], t);
      assert [s[0]] + s[1..] == s;
    }
  }

  /** How `ParseMember` reads a member written without whitespace. */
  lemma ParseMemberUnspaced(s: string, name: string, r1: string, value: string, r4: string)
    requires s != [] && s[0] == '"'
    requires ParseStringBody(s[1..]) == Some((name, r1))
    requires |r1| >= 2 && r1[0] == ':' && r1[1] == '"'
    requires ParseStringBody(r1[2..]) == Some((value, r4))
    ensures ParseMember(s) == Some((Member(name, value), r4))
  {
    assert SkipWs(r1) == r1;
    assert SkipWs(r1[1..]) == r1[1..];
    assert r1[1..][1..] == r1[2..];
  }

  lemma MemberTextShape(a: string, b: string, t: string)
    ensures ['"'] + a + ['"'] + [':'] + (['"'] + b + ['"']) + t
      == ['"'] + (a + ['"'] + ([':', '"'] + (b + ['"'] + t)))
  {
  }

  lemma EncodeMemberShape(m: Member, t: string)
    ensures EncodeMember(m) + t
      == ['"'] + (Escape(m.name) + ['"'] + ([':', '"'] + (Escape(m.value) + ['"'] + t)))
  {
    MemberTextShape(Escape(m.name), Escape(m.value), t);
  }

  lemma ParseEncodedMember(m: Member, t: string)
    ensures ParseMember(EncodeMember(m) + t) == Some((m, t))
  {
    var valueText := Escape(m.value) + ['"'] + t;
    var afterName := [':', '"'] + valueText;
    var s := ['"'] + (Escape(m.name) + ['"'] + afterName);
    EncodeMemberShape(m, t);
    assert s[1..] == Escape(m.name) + ['"'] + afterName;
    ParseEscapedString(m.name, afterName);
    assert afterName[2..] == valueText;
    ParseEscapedString(m.value, t);
    ParseMemberUnspaced(s, m.name, afterName, m.value, t);
  }

  /** How `ParseMembers` reads the last member of an object written without whitespace. */
  lemma ParseMembersLast(s: string, m: Member, r1: string)
    requires ParseMember(s) == Some((m, r1))
    requires r1 != [] && r1[0] == '}'
    ensures ParseMembers(s) == Some(([m], r1[1..]))
  {
    assert SkipWs(r1) == r1;
  }

  /** How `ParseMembers` reads a member followed by a comma, written without whitespace. */
  lemma ParseMembersNext(s: string, m: Member, r1: string, ms: seq<Member>, r3: string)
    requires ParseMember(s) == Some((m, r1))
    requires |r1| >= 2 && r1[0] == ',' && r1[1] == '"'
    requires ParseMembers(r1[1..]) == Some((ms, r3))
    ensures ParseMembers(s) == Some(([m] + ms, r3))
  {
    assert SkipWs(r1) == r1;
    assert SkipWs(r1[1..]) == r1[1..];
  }

  lemma ListTextShape(a: string, b: string, t: string)
    ensures a + [','] + b + ['}'] + t == a + ([','] + (b + ['}'] + t))
  {
  }

  lemma EncodeMembersShape(o: Object, t: string)
    requires |o| > 1
    ensures EncodeMembers(o) + ['}'] + t
      == EncodeMember(o[0]) + ([','] + (EncodeMembers(o[1..]) + ['}'] + t))
  {
    assert EncodeMembers(o) == EncodeMember(o[0]) + [','] + EncodeMembers(o[1..]);
    ListTextShape(EncodeMember(o[0]), EncodeMembers(o[1..]), t);
  }

  lemma {:induction false} ParseEncodedMembers(o: Object, t: string)
    requires o != []
    ensures ParseMembers(EncodeMembers(o) + ['}'] + t) == Some((o, t))
  {
    if |o| == 1 {
      assert EncodeMembers(o) + ['}'] + t == EncodeMember(o[0]) + (['}'] + t);
      ParseEncodedMember(o[0], ['}'] + t);
      ParseMembersLast(EncodeMembers(o) + ['}'] + t, o[0], ['}'] + t);
      assert [o[0]] == o;
    } else {
      var next := EncodeMembers(o[1..]) + ['}'] + t;
      var rest := [','] + next;
      EncodeMembersShape(o, t);
      ParseEncodedMember(o[0], rest);
      EncodeMembersStartsWithQuote(o[1..]);
      ParseEncodedMembers(o[1..], t);
      assert rest[1..] == next;
      ParseMembersNext(EncodeMembers(o) + ['}'] + t, o[0], rest, o[1..], t);
      assert [o[0]] + o[1..] == o;
    }
  }

  lemma EncodeMembersStartsWithQuote(o: Object)
    requires o != []
    ensures EncodeMembers(o) != [] && EncodeMembers(o)[0] == '"'
  {
  }

  /** How `ParseObject` reads an object written without whitespace. */
  lemma ParseObjectUnspaced(s: string)
    requires |s| >= 2 && s[0] == '{' && (s[1] == '}' || s[1] == '"')
    ensures ParseObject(s) == if s[1] == '}' then Some(([], s[2..])) else ParseMembers(s[1..])
  {
    assert SkipWs(s) == s;
    assert SkipWs(s[1..]) == s[1..];
  }

  /** Decoding what the encoder wrote gives back the object it would have been parsed into. */
  lemma DecodeEncode(o: Object)
    ensures Decode(Encode(o)) == Some(Collect(o))
  {
    var s := Encode(o);
    if o == [] {
      assert s == ['{', '}'];
      ParseObjectUnspaced(s);
    } else {
      EncodeMembersStartsWithQuote(o);
      var body := EncodeMembers(o) + ['}'] + [];
      assert s[1..] == body;
      assert s[1] == '"';
      ParseObjectUnspaced(s);
      ParseEncodedMembers(o, []);
      assert ParseObject(s) == Some((o, []));
    }
  }

  /** The round-trip law: an object with distinct names survives encoding and decoding. */
  lemma DecodeEncodeUnique(o: Object)
    requires UniqueNames(o)
    ensures Decode(Encode(o)) == Some(o)
  {
    DecodeEncode(o);
    CollectUnique(o);
  }

  // ------------------------------------------------ the stored matching answer

  /**
   * The pairs already chosen, as the change handler reads them: an empty
   * answer, or one that does not decode, counts as no pairs at all.
   */
  function StoredPairs(answer: string): (o: Object)
    ensures UniqueNames(o)
    ensures answer == "" ==> o == []
    ensures Decode(answer).Some? ==> o == Decode(answer).value
    ensures Decode(answer).None? ==> o == []
  {
    if answer == "" then []
    else match Decode(answer)
      case Some(o) => o
      case None => []
  }

  /** The answer string stored after `value` is chosen for the left-column prompt `key`. */
  function SetMatchingPair(answer: string, key: string, value: string): (r: string)
    ensures r != "" && r[0] == '{'
  {
    Encode(Put(StoredPairs(answer), key, value))
  }

  /**
   * The option the drop-down for `key` shows: the stored choice, or the
   * empty placeholder when the answer is absent, does not decode or has no
   * such key. It agrees with what the change handler reads.
   */
  function Selection(answer: string, key: string): (r: string)
    ensures Get(StoredPairs(answer), key).Some? ==> r == Get(StoredPairs(answer), key).value
    ensures Get(StoredPairs(answer), key).None? ==> r == ""
  {
    match Decode(answer)
    case None => ""
    case Some(o) =>
      match Get(o, key)
      case Some(v) => v
      case None => ""
  }

  /**
   * The stored answer decodes to the old pairs with only `key` set to
   * `value`: an existing key keeps its place, a new one comes last, and
   * every other key keeps its value.
   */
  lemma SetMatchingPairRoundTrip(answer: string, key: string, value: string)
    ensures Decode(SetMatchingPair(answer, key, value)).Some?
    ensures StoredPairs(SetMatchingPair(answer, key, value)) == Put(StoredPairs(answer), key, value)
    ensures forall k ::
      Get(StoredPairs(SetMatchingPair(answer, key, value)), k)
      == if k == key then Some(value) else Get(StoredPairs(answer), k)
  {
    var o := Put(StoredPairs(answer), key, value);
    PutKeepsNamesUnique(StoredPairs(answer), key, value);
    DecodeEncodeUnique(o);
    forall k | true {
      GetAfterPut(StoredPairs(answer), key, value, k);
    }
  }

  /** Choosing the same value for the same key again stores the identical string. */
  lemma SetMatchingPairIdempotent(answer: string, key: string, value: string)
    ensures SetMatchingPair(SetMatchingPair(answer, key, value), key, value)
      == SetMatchingPair(answer, key, value)
  {
    SetMatchingPairRoundTrip(answer, key, value);
    PutIdempotent(StoredPairs(answer), key, value);
  }

  /** After a choice the drop-down for that key shows it, and every other drop-down is unchanged. */
  lemma SelectionAfterSet(answer: string, key: string, value: string, other: string)
    ensures Selection(SetMatchingPair(answer, key, value), key) == value
    ensures other != key ==>
      Selection(SetMatchingPair(answer, key, value), other) == Selection(answer, other)
  {
    SetMatchingPairRoundTrip(answer, key, value);
  }

  /** An empty answer, an empty object and text that is not an object all mean "no pairs yet". */
  lemma StoredPairsOfNothing()
    ensures StoredPairs("") == []
    ensures StoredPairs("{}") == []
    ensures StoredPairs("null") == []
    ensures StoredPairs("{\"a\":") == []
  {
    assert Encode([]) == "{}";
    DecodeEncode([]);
    assert SkipWs("null") == "null";
    var cut := "{\"a\":";
    assert SkipWs(cut) == cut && SkipWs(cut[1..]) == cut[1..];
    assert cut[2..] == "a\":" && cut[3..] == "\":";
    assert cut[2..][0] == 'a' && cut[2..][1..] == cut[3..];
    assert ParseChar(cut[2..]) == Some(('a', cut[3..]));
    assert cut[3..][1..] == cut[4..] == ":";
    assert ParseStringBody(cut[3..]) == Some(([], cut[4..]));
    assert ['a'] + [] == "a";
    assert ParseStringBody(cut[2..]) == Some(("a", cut[4..]));
    assert SkipWs(cut[4..]) == cut[4..] && cut[4..][1..] == [];
    assert ParseMember(cut[1..]) == None;
    assert ParseObject(cut) == None;
  }
}
