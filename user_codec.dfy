/** The user record a session stores, and the JSON text it is stored as.

    The text is what JSON.stringify(user, null, 2) writes: an object with
    one member per line, indented by two spaces, the members in a fixed
    order, strings escaped as JSON.stringify escapes them, and the optional
    `active` flag omitted when it is absent. */
module UserCodec {
  import opened Wrappers
  import opened Access
  import opened Seqs

  datatype UserData = UserData(
    email: string,
    firstName: string,
    lastName: string,
    password: string,
    role: Role,
    active: Option<bool>)

  // ---- quoted strings ----

  /** The one-letter escapes JSON.stringify writes: `\"`, `\\`, `\b`,
      `\f`, `\n`, `\r` and `\t`. */
  function ShortEscape(c: char): Option<char> {
    if c == '"' then Some('"')
    else if c == '\\' then Some('\\')
    else if c == 8 as char then Some('b')
    else if c == 12 as char then Some('f')
    else if c == '\n' then Some('n')
    else if c == '\r' then Some('r')
    else if c == '\t' then Some('t')
    else None
  }

  /** The character a one-letter escape stands for. */
  function Unescape(e: char): (r: Option<char>)
    ensures r.Some? ==> ShortEscape(r.value) == Some(e)
  {
    if e == '"' then Some('"')
    else if e == '\\' then Some('\\')
    else if e == 'b' then Some(8 as char)
    else if e == 'f' then Some(12 as char)
    else if e == 'n' then Some('\n')
    else if e == 'r' then Some('\r')
    else if e == 't' then Some('\t')
    else None
  }

  /** A lower-case hexadecimal digit. */
  function HexDigit(d: nat): (h: char)
    requires d < 16
    ensures HexValue(h) == Some(d)
  {
    if d < 10 then ('0' as int + d) as char else ('a' as int + d - 10) as char
  }

  function HexValue(h: char): (r: Option<nat>)
    ensures r.Some? ==> r.value < 16
  {
    if '0' <= h <= '9' then Some(h as int - '0' as int)
    else if 'a' <= h <= 'f' then Some(h as int - 'a' as int + 10)
    else None
  }

  lemma HexDigitOfValue(h: char)
    requires HexValue(h).Some?
    ensures HexDigit(HexValue(h).value) == h
  {
  }

  /** How JSON.stringify writes one character inside a string: a one-letter
      escape, `\u00xx` for the other control characters, the character
      itself otherwise. */
  function EscapeChar(c: char): (e: string)
    ensures |e| >= 1 && e[0] != '"'
  {
    match ShortEscape(c)
    case Some(x) => ['\\', x]
    case None =>
      if c as int < 0x20 then ['\\', 'u', '0', '0', HexDigit(c as int / 16), HexDigit(c as int % 16)]
      else [c]
  }

  /** The body of a JSON string literal for `s` (without the quotes). */
  function Escape(s: string): string {
    if s == [] then [] else EscapeChar(s[0]) + Escape(s[1..])
  }

  /** Reads one character of a string body. Raw control characters are
      refused, as JSON.parse refuses them; of the escapes, only those
      JSON.stringify writes are accepted, so every body has one reading. */
  function ReadChar(t: string): (r: Option<(char, string)>)
    ensures r.Some? ==> |r.value.1| < |t|
  {
    if t == [] || t[0] == '"' then None
    else if t[0] == '\\' then
      if |t| < 2 then None
      else match Unescape(t[1])
        case Some(c) => Some((c, t[2..]))
        case None =>
          if |t| >= 6 && t[1] == 'u' && t[2] == '0' && t[3] == '0' && (t[4] == '0' || t[4] == '1') && HexValue(t[5]).Some? then
            var code := (if t[4] == '1' then 16 else 0) + HexValue(t[5]).value;
            if ShortEscape(code as char).None? then Some((code as char, t[6..])) else None
          else None
    else if t[0] as int < 0x20 then None
    else Some((t[0], t[1..]))
  }

  lemma ReadCharEscape(c: char, rest: string)
    ensures ReadChar(EscapeChar(c) + rest) == Some((c, rest))
  {
    var t := EscapeChar(c) + rest;
    match ShortEscape(c)
    case Some(x) =>
      assert t[1] == x && t[2..] == rest;
    case None =>
      if c as int < 0x20 {
        assert t[1] == 'u' && t[4] == HexDigit(c as int / 16) && t[5] == HexDigit(c as int % 16);
        assert t[6..] == rest;
      } else {
        assert t[1..] == rest;
      }
  }

  lemma ReadCharCanonical(t: string)
    ensures ReadChar(t).Some? ==> t == EscapeChar(ReadChar(t).value.0) + ReadChar(t).value.1
  {
    if ReadChar(t).Some? && t[0] == '\\' {
      if Unescape(t[1]).Some? {
        assert t == ['\\', t[1]] + t[2..];
      } else {
        var code := (if t[4] == '1' then 16 else 0) + HexValue(t[5]).value;
        HexDigitOfValue(t[5]);
        assert code / 16 == (if t[4] == '1' then 1 else 0) && code % 16 == HexValue(t[5]).value;
        assert t == ['\\', 'u', '0', '0', t[4], t[5]] + t[6..];
      }
    } else if ReadChar(t).Some? {
      assert t == [t[0]] + t[1..];
    }
  }

  /** Reads a string body up to its closing quote; returns the unescaped
      text and what follows the closing quote. */
  function ReadBody(t: string): (r: Option<(string, string)>)
    ensures r.Some? ==> |r.value.1| < |t|
    decreases |t|
  {
    if t == [] then None
    else if t[0] == '"' then Some(([], t[1..]))
    else
      match ReadChar(t)
      case None => None
      case Some(cr) =>
        match ReadBody(cr.1)
        case None => None
        case Some(r) => Some(([cr.0] + r.0, r.1))
  }

  lemma {:induction false} ReadEscaped(s: string, rest: string)
    ensures ReadBody(Escape(s) + "\"" + rest) == Some((s, rest))
  {
    if s != [] {
      var tail := Escape(s[1..]) + "\"" + rest;
      ReadEscaped(s[1..], rest);
      ReadCharEscape(s[0], tail);
      assert Escape(s) + "\"" + rest == EscapeChar(s[0]) + tail;
      assert [s[0]] + s[1..] == s;
    }
  }

  lemma {:induction false} ReadBodyCanonical(t: string)
    ensures ReadBody(t).Some? ==> t == Escape(ReadBody(t).value.0) + "\"" + ReadBody(t).value.1
    decreases |t|
  {
    if t != [] && t[0] != '"' {
      ReadCharCanonical(t);
      if ReadChar(t).Some? {
        var cr := ReadChar(t).value;
        ReadBodyCanonical(cr.1);
        if ReadBody(cr.1).Some? {
          var r := ReadBody(cr.1).value;
          assert ReadBody(t).value == ([cr.0] + r.0, r.1);
          assert ([cr.0] + r.0)[0] == cr.0 && ([cr.0] + r.0)[1..] == r.0;
          assert Escape([cr.0] + r.0) == EscapeChar(cr.0) + Escape(r.0);
          assert t == EscapeChar(cr.0) + (Escape(r.0) + "\"" + r.1);
        }
      }
    }
  }

  // ---- object members ----

  /** If `t` starts with `lit`, what follows it. */
  function Expect(lit: string, t: string): (r: Option<string>)
    ensures r.Some? <==> lit <= t
    ensures r.Some? ==> t == lit + r.value
  {
    if lit <= t then Some(t[|lit|..]) else None
  }

  lemma ExpectLiteral(lit: string, rest: string)
    ensures Expect(lit, lit + rest) == Some(rest)
  {
    assert lit <= lit + rest;
  }

  /** What opens the object and its first member's line. */
  const Open := "{\n  "

  /** What ends one member's line and starts the next one's. */
  const Separator := ",\n  "

  /** `"key": "value"` for a string-valued member. */
  function Member(key: string, value: string): string {
    "\"" + key + "\": \"" + Escape(value) + "\""
  }

  function ReadMember(key: string, t: string): Option<(string, string)> {
    var body :- Expect("\"" + key + "\": \"", t);
    ReadBody(body)
  }

  lemma MemberRoundTrip(key: string, value: string, rest: string)
    ensures ReadMember(key, Member(key, value) + rest) == Some((value, rest))
  {
    var lit := "\"" + key + "\": \"";
    assert Member(key, value) + rest == lit + (Escape(value) + "\"" + rest);
    ExpectLiteral(lit, Escape(value) + "\"" + rest);
    ReadEscaped(value, rest);
  }

  lemma MemberCanonical(key: string, t: string)
    ensures ReadMember(key, t).Some? ==>
      t == Member(key, ReadMember(key, t).value.0) + ReadMember(key, t).value.1
  {
    var lit := "\"" + key + "\": \"";
    var e := Expect(lit, t);
    if e.Some? {
      ReadBodyCanonical(e.value);
      if ReadBody(e.value).Some? {
        var r := ReadBody(e.value).value;
        assert t == lit + (Escape(r.0) + "\"" + r.1);
        assert t == Member(key, r.0) + r.1;
      }
    }
  }

  // ---- the record ----

  function RoleName(role: Role): string {
    match role
    case Admin => "admin"
    case Customer => "customer"
  }

  function ParseRole(name: string): (r: Option<Role>)
    ensures forall role :: r == Some(role) <==> name == RoleName(role)
  {
    if name == "admin" then Some(Admin)
    else if name == "customer" then Some(Customer)
    else None
  }

  /** The closing part: the optional `active` member and the closing brace. */
  function Closing(active: Option<bool>): (c: string)
    ensures |c| >= 2 && c[|c| - 1] == '}'
  {
    match active
    case None => "\n}"
    case Some(true) => ",\n  \"active\": true\n}"
    case Some(false) => ",\n  \"active\": false\n}"
  }

  function ParseClosing(t: string): (r: Option<Option<bool>>)
    ensures forall a :: r == Some(a) <==> t == Closing(a)
  {
    if t == "\n}" then Some(None)
    else if t == ",\n  \"active\": true\n}" then Some(Some(true))
    else if t == ",\n  \"active\": false\n}" then Some(Some(false))
    else None
  }

  /** The stored text of a user record. */
  function Encode(u: UserData): (e: string)
    ensures Open <= e && e[|e| - 1] == '}'
  {
    var t5 := Member("role", RoleName(u.role)) + Closing(u.active);
    AppendEnds(Member("role", RoleName(u.role)), Closing(u.active));
    var t1 := Line("email", u.email, Line("firstName", u.firstName,
                Line("lastName", u.lastName, Line("password", u.password, t5))));
    AppendEnds(Open, t1);
    Open + t1
  }

  /** One string member followed by the separator and the rest of the object. */
  function Line(key: string, value: string, rest: string): (t: string)
    requires rest != [] && rest[|rest| - 1] == '}'
    ensures t != [] && t[|t| - 1] == '}'
  {
    AppendEnds(Separator, rest);
    AppendEnds(Member(key, value), Separator + rest);
    Member(key, value) + (Separator + rest)
  }

  /** Parses stored text back into a user record; None for any text that is
      not the encoding of a record. */
  function Decode(p: string): (r: Option<UserData>)
    ensures r.Some? ==> Open <= p
  {
    var t0 :- Expect(Open, p);
    var email :- ReadMember("email", t0);
    var t1 :- Expect(Separator, email.1);
    var firstName :- ReadMember("firstName", t1);
    var t2 :- Expect(Separator, firstName.1);
    var lastName :- ReadMember("lastName", t2);
    var t3 :- Expect(Separator, lastName.1);
    var password :- ReadMember("password", t3);
    var t4 :- Expect(Separator, password.1);
    var role :- ReadMember("role", t4);
    var r :- ParseRole(role.0);
    var active :- ParseClosing(role.1);
    Some(UserData(email.0, firstName.0, lastName.0, password.0, r, active))
  }

  /** Round trip: a stored record reads back as itself. */
  lemma DecodeEncode(u: UserData)
    ensures Decode(Encode(u)) == Some(u)
  {
    var tail5 := Member("role", RoleName(u.role)) + Closing(u.active);
    var tail4 := Member("password", u.password) + (Separator + tail5);
    var tail3 := Member("lastName", u.lastName) + (Separator + tail4);
    var tail2 := Member("firstName", u.firstName) + (Separator + tail3);
    var tail1 := Member("email", u.email) + (Separator + tail2);
    assert Encode(u) == Open + tail1;
    ExpectLiteral(Open, tail1);
    MemberRoundTrip("email", u.email, Separator + tail2);
    ExpectLiteral(Separator, tail2);
    MemberRoundTrip("firstName", u.firstName, Separator + tail3);
    ExpectLiteral(Separator, tail3);
    MemberRoundTrip("lastName", u.lastName, Separator + tail4);
    ExpectLiteral(Separator, tail4);
    MemberRoundTrip("password", u.password, Separator + tail5);
    ExpectLiteral(Separator, tail5);
    MemberRoundTrip("role", RoleName(u.role), Closing(u.active));
  }

  /** Canonicity: the only text that decodes to `u` is the encoding of `u`. */
  lemma EncodeDecode(p: string)
    ensures Decode(p).Some? ==> p == Encode(Decode(p).value)
  {
    if Decode(p).Some? {
      var t0 := Expect(Open, p).value;
      var email := ReadMember("email", t0).value;
      var t1 := Expect(Separator, email.1).value;
      var firstName := ReadMember("firstName", t1).value;
      var t2 := Expect(Separator, firstName.1).value;
      var lastName := ReadMember("lastName", t2).value;
      var t3 := Expect(Separator, lastName.1).value;
      var password := ReadMember("password", t3).value;
      var t4 := Expect(Separator, password.1).value;
      var role := ReadMember("role", t4).value;
      MemberCanonical("email", t0);
      MemberCanonical("firstName", t1);
      MemberCanonical("lastName", t2);
      MemberCanonical("password", t3);
      MemberCanonical("role", t4);
      var u := Decode(p).value;
      assert role.1 == Closing(u.active) && role.0 == RoleName(u.role);
      assert t4 == Member("role", RoleName(u.role)) + Closing(u.active);
      assert t3 == Member("password", u.password) + (Separator + t4);
      assert t2 == Member("lastName", u.lastName) + (Separator + t3);
      assert t1 == Member("firstName", u.firstName) + (Separator + t2);
      assert t0 == Member("email", u.email) + (Separator + t1);
      assert p == Open + t0;
    }
  }

  /** Both directions at once: `p` decodes to `v` exactly when `p` is `v`'s encoding. */
  lemma DecodeIff(p: string)
    ensures forall v :: Decode(p) == Some(v) <==> p == Encode(v)
  {
    EncodeDecode(p);
    forall v | p == Encode(v) ensures Decode(p) == Some(v) {
      DecodeEncode(v);
    }
  }

  /** Text that is not an object, such as the empty string, does not decode. */
  lemma DecodeRejectsNonObject(p: string)
    requires p == [] || p[0] != '{'
    ensures Decode(p) == None
  {
  }
}
