/** Share links, and the reader that splits them (sections 2.1 and 3 of RFC 3986). */
module Uri {
  import opened Wrappers

  // ---- percent-encoding ----

  predicate Unreserved(b: byte) {
    48 <= b <= 57 || 65 <= b <= 90 || 97 <= b <= 122 || b in {45, 46, 95, 126}
  }

  function HexDigit(n: nat): char
    requires n < 16
  {
    if n < 10 then (48 + n) as char else (55 + n) as char
  }

  function HexValue(c: char): Option<nat> {
    var n := c as int;
    if 48 <= n <= 57 then Some(n - 48) else if 65 <= n <= 70 then Some(n - 55) else None
  }

  /** One byte of a link's text. */
  function Escaped(b: byte): string {
    if Unreserved(b) then [b as char] else ['%', HexDigit(b / 16), HexDigit(b % 16)]
  }

  /** Every byte outside the unreserved set escaped. */
  function PercentOf(text: Bytes): string {
    if text == [] then "" else PercentOf(text[..|text| - 1]) + Escaped(text[|text| - 1])
  }

  method Percent(text: Bytes) returns (out: string)
    ensures out == PercentOf(text)
  {
    out := "";
    for i := 0 to |text|
      invariant out == PercentOf(text[..i])
    {
      assert text[..i + 1][..i] == text[..i];
      var b := text[i];
      if Unreserved(b) {
        out := out + [b as char];
      } else {
        out := out + ['%'];
        out := out + [HexDigit(b / 16)];
        out := out + [HexDigit(b % 16)];
      }
    }
    assert text[..|text|] == text;
  }

  /** What a reader makes of a text: escapes undone, anything but an unreserved character or a full escape refused. */
  function PercentDecode(s: string): Option<Bytes> {
    if s == "" then
      Some([])
    else if s[0] == '%' then
      if |s| < 3 || HexValue(s[1]).None? || HexValue(s[2]).None? then None
      else
        match PercentDecode(s[3..])
        case None => None
        case Some(rest) => Some([16 * HexValue(s[1]).value + HexValue(s[2]).value] + rest)
    else if s[0] as int < 256 && Unreserved(s[0] as int) then
      match PercentDecode(s[1..])
      case None => None
      case Some(rest) => Some([s[0] as int] + rest)
    else
      None
  }

  /** Letters, digits and four marks: section 2.3 of RFC 3986. */
  predicate Kept(c: char) {
    'A' <= c <= 'Z' || 'a' <= c <= 'z' || '0' <= c <= '9' || c in {'-', '.', '_', '~'}
  }

  const HEX := "0123456789ABCDEF"

  /** A byte stands for itself exactly if it is one of those, and is written in two digits otherwise. */
  lemma EscapedIs(b: byte)
    ensures Kept(b as char) ==> Escaped(b) == [b as char]
    ensures !Kept(b as char) ==> Escaped(b) == ['%', HEX[b / 16], HEX[b % 16]]
  {
    DigitIs(b / 16);
    DigitIs(b % 16);
  }

  lemma DigitIs(n: nat)
    requires n < 16
    ensures HexDigit(n) == HEX[n]
  {
  }

  /** A text is escaped byte by byte. */
  lemma {:induction false} PercentAppend(a: Bytes, b: Bytes)
    ensures PercentOf(a + b) == PercentOf(a) + PercentOf(b)
  {
    hide Escaped;
    if b == [] {
      assert a + b == a;
    } else {
      PercentAppend(a, b[..|b| - 1]);
      assert (a + b)[..|a + b| - 1] == a + b[..|b| - 1];
    }
  }

  lemma EscapedDecodes(b: byte, rest: string)
    ensures PercentDecode(Escaped(b) + rest)
         == match PercentDecode(rest) case None => None case Some(t) => Some([b] + t)
  {
    var e := Escaped(b);
    assert (e + rest)[|e|..] == rest;
    if !Unreserved(b) {
      assert HexValue(HexDigit(b / 16)) == Some(b / 16) && HexValue(HexDigit(b % 16)) == Some(b % 16);
    }
  }

  lemma {:induction false} PercentDecodes(text: Bytes, rest: string)
    requires PercentDecode(rest).Some?
    ensures PercentDecode(PercentOf(text) + rest) == Some(text + PercentDecode(rest).value)
  {
    hide PercentDecode, Escaped;
    if text == [] {
      assert PercentOf(text) + rest == rest && text + PercentDecode(rest).value == PercentDecode(rest).value;
    } else {
      var n := |text| - 1;
      var before, b := text[..n], text[n];
      EscapedDecodes(b, rest);
      PercentDecodes(before, Escaped(b) + rest);
      assert PercentOf(before) + Escaped(b) + rest == PercentOf(before) + (Escaped(b) + rest);
      assert before + ([b] + PercentDecode(rest).value) == text + PercentDecode(rest).value;
    }
  }

  /** Decoding undoes percent-encoding for every text. */
  lemma PercentRoundTrip(text: Bytes)
    ensures PercentDecode(PercentOf(text)) == Some(text)
  {
    PercentDecodes(text, "");
    assert PercentOf(text) + "" == PercentOf(text) && text + [] == text;
  }

  /** The characters that separate the parts of a link. */
  predicate Delimiter(c: char) {
    c in {':', '/', '?', '#', '[', ']', '@', '&', '='}
  }

  predicate Clean(s: string) {
    forall i :: 0 <= i < |s| ==> !Delimiter(s[i])
  }

  /** An encoded text holds no separator. */
  lemma {:induction false} PercentClean(text: Bytes)
    ensures Clean(PercentOf(text))
  {
    if text != [] {
      PercentClean(text[..|text| - 1]);
      EscapedClean(text[|text| - 1]);
    }
  }

  lemma EscapedClean(b: byte)
    ensures Clean(Escaped(b))
  {
  }

  // ---- numbers ----

  function Decimal(n: nat): (s: string)
    ensures |s| > 0
  {
    if n < 10 then [(48 + n) as char] else Decimal(n / 10) + [(48 + n % 10) as char]
  }

  function ReadDecimal(s: string): Option<nat> {
    if s == "" then None
    else
      var last := s[|s| - 1] as int - 48;
      if last < 0 || last > 9 then None
      else if |s| == 1 then Some(last)
      else
        match ReadDecimal(s[..|s| - 1])
        case None => None
        case Some(n) => Some(10 * n + last)
  }

  lemma {:induction false} DecimalRoundTrip(n: nat)
    ensures ReadDecimal(Decimal(n)) == Some(n) && Clean(Decimal(n))
  {
    if n >= 10 {
      DecimalRoundTrip(n / 10);
      assert Decimal(n)[..|Decimal(n)| - 1] == Decimal(n / 10);
      DigitClean(n % 10);
    } else {
      DigitClean(n);
    }
  }

  lemma DigitClean(d: nat)
    requires d < 10
    ensures !Delimiter((48 + d) as char)
  {
  }

  // ---- splitting ----

  /** Before and after the first occurrence of a character. */
  function SplitAt(s: string, c: char): Option<(string, string)> {
    if s == "" then None
    else if s[0] == c then Some(("", s[1..]))
    else
      match SplitAt(s[1..], c)
      case None => None
      case Some((a, b)) => Some(([s[0]] + a, b))
  }

  lemma {:induction false} SplitFirst(a: string, c: char, b: string)
    requires c !in a
    ensures SplitAt(a + [c] + b, c) == Some((a, b))
  {
    var s := a + [c] + b;
    if a == "" {
      assert s[1..] == b;
    } else {
      assert s[1..] == a[1..] + [c] + b;
      assert a == [a[0]] + a[1..];
      SplitFirst(a[1..], c, b);
    }
  }

  lemma {:induction false} SplitNone(s: string, c: char)
    requires c !in s
    ensures SplitAt(s, c) == None
  {
    if s != "" {
      SplitNone(s[1..], c);
    }
  }

  lemma CleanLacks(s: string, c: char)
    requires Clean(s) && Delimiter(c)
    ensures c !in s
  {
  }

  // ---- the host ----

  const OPEN: byte := 91
  const CLOSE: byte := 93

  /** What may stand in the text of an IPv6 address: hexadecimal digits, colons and dots. */
  predicate V6Char(b: byte) {
    48 <= b <= 57 || 65 <= b <= 70 || 97 <= b <= 102 || b == 58 || b == 46
  }

  /** Which texts are IPv6 addresses. */
  datatype Env = Env(isV6: Bytes -> bool) {
    ghost predicate Valid() {
      forall t, i :: isV6(t) && 0 <= i < |t| ==> V6Char(t[i])
    }
  }

  function Raw(text: Bytes): (s: string)
    ensures |s| == |text| && forall i :: 0 <= i < |text| ==> s[i] == text[i] as char
  {
    seq(|text|, i requires 0 <= i < |text| => text[i] as char)
  }

  function Unraw(s: string): Option<Bytes> {
    if s == "" then Some([])
    else if s[0] as int >= 256 then None
    else
      match Unraw(s[1..])
      case None => None
      case Some(rest) => Some([s[0] as int] + rest)
  }

  lemma {:induction false} UnrawRaw(text: Bytes)
    ensures Unraw(Raw(text)) == Some(text)
  {
    if text != [] {
      UnrawRaw(text[1..]);
      assert Raw(text)[1..] == Raw(text[1..]);
      assert text == [text[0]] + text[1..];
    }
  }

  predicate Bracketed(address: Bytes) {
    address != [] && address[0] == OPEN && address[|address| - 1] == CLOSE
  }

  /** An address for the authority of a link: brackets around IPv6, and anything else escaped. An address that
      comes in brackets is passed through. */
  function HostText(env: Env, address: Bytes): string {
    if Bracketed(address) then Raw(address)
    else if env.isV6(address) then "[" + Raw(address) + "]"
    else PercentOf(address)
  }

  /** The reader's host and port. */
  function ReadHostPort(s: string): Option<(Bytes, nat)> {
    if s != "" && s[0] == '[' then
      match SplitAt(s[1..], ']')
      case None => None
      case Some((inside, after)) =>
        if after == "" || after[0] != ':' || Unraw(inside).None? || ReadDecimal(after[1..]).None? then None
        else Some((Unraw(inside).value, ReadDecimal(after[1..]).value))
    else
      match SplitAt(s, ':')
      case None => None
      case Some((host, port)) =>
        if PercentDecode(host).None? || ReadDecimal(port).None? then None
        else Some((PercentDecode(host).value, ReadDecimal(port).value))
  }

  lemma HostPortRoundTrip(env: Env, address: Bytes, port: nat)
    requires env.Valid() && !Bracketed(address)
    ensures ReadHostPort(HostText(env, address) + ":" + Decimal(port)) == Some((address, port))
  {
    hide PercentDecode, Decimal, ReadDecimal, PercentOf, SplitAt, Unraw;
    DecimalRoundTrip(port);
    var digits := Decimal(port);
    if env.isV6(address) {
      var s := "[" + Raw(address) + "]" + ":" + digits;
      assert s[1..] == Raw(address) + [']'] + (":" + digits);
      assert ']' !in Raw(address) by { V6Lacks(env, address); }
      SplitFirst(Raw(address), ']', ":" + digits);
      assert (":" + digits)[1..] == digits;
      UnrawRaw(address);
    } else {
      var host := PercentOf(address);
      PercentClean(address);
      CleanLacks(host, ':');
      CleanLacks(host, '[');
      PercentRoundTrip(address);
      SplitFirst(host, ':', digits);
      var s := host + ":" + digits;
      assert s[0] != '[' by {
        if host != "" {
          assert s[0] == host[0];
        }
      }
    }
  }

  lemma V6Lacks(env: Env, address: Bytes)
    requires env.Valid() && env.isV6(address)
    ensures ']' !in Raw(address) && '?' !in Raw(address) && '#' !in Raw(address) && '@' !in Raw(address)
  {
    forall i | 0 <= i < |address| ensures Raw(address)[i] !in {']', '?', '#', '@'} {
      assert V6Char(address[i]);
    }
  }

  /** The host text ends neither the authority nor the link. */
  lemma HostLacks(env: Env, address: Bytes)
    requires env.Valid() && !Bracketed(address)
    ensures '?' !in HostText(env, address) && '#' !in HostText(env, address) && '@' !in HostText(env, address)
  {
    hide PercentOf;
    if env.isV6(address) {
      V6Lacks(env, address);
    } else {
      PercentClean(address);
    }
  }

  // ---- the query ----

  datatype Key =
    | TypeKey | SecurityKey | SniKey | AlpnKey | FpKey | PbkKey
    | SidKey | HostKey | PathKey | ModeKey | EncryptionKey | FlowKey

  function KeyText(k: Key): string {
    match k
    case TypeKey => "type"
    case SecurityKey => "security"
    case SniKey => "sni"
    case AlpnKey => "alpn"
    case FpKey => "fp"
    case PbkKey => "pbk"
    case SidKey => "sid"
    case HostKey => "host"
    case PathKey => "path"
    case ModeKey => "mode"
    case EncryptionKey => "encryption"
    case FlowKey => "flow"
  }

  lemma KeyClean(k: Key)
    ensures Clean(KeyText(k)) && KeyText(k) != ""
  {
  }

  type Param = (Key, Bytes)

  function PairText(p: Param): string {
    KeyText(p.0) + "=" + PercentOf(p.1)
  }

  /** The pairs joined by ampersands. */
  function Query(params: seq<Param>): string {
    if params == [] then ""
    else if |params| == 1 then PairText(params[0])
    else PairText(params[0]) + "&" + Query(params[1..])
  }

  function ReadPair(s: string): Option<(string, Bytes)> {
    match SplitAt(s, '=')
    case None => None
    case Some((k, v)) => if PercentDecode(v).None? then None else Some((k, PercentDecode(v).value))
  }

  /** The reader's pairs, in order. */
  function ReadQuery(s: string): Option<seq<(string, Bytes)>>
    decreases |s|
  {
    if s == "" then Some([])
    else
      match SplitAt(s, '&')
      case None => (match ReadPair(s) case None => None case Some(p) => Some([p]))
      case Some((pair, rest)) =>
        SplitShorter(s, '&');
        match ReadPair(pair)
        case None => None
        case Some(p) =>
          match ReadQuery(rest)
          case None => None
          case Some(ps) => Some([p] + ps)
  }

  lemma {:induction false} SplitShorter(s: string, c: char)
    requires SplitAt(s, c).Some?
    ensures |SplitAt(s, c).value.1| < |s|
  {
    if s[0] != c {
      SplitShorter(s[1..], c);
    }
  }

  function Texts(params: seq<Param>): (t: seq<(string, Bytes)>)
    ensures |t| == |params|
  {
    if params == [] then [] else [(KeyText(params[0].0), params[0].1)] + Texts(params[1..])
  }

  lemma PairRoundTrip(p: Param)
    ensures ReadPair(PairText(p)) == Some((KeyText(p.0), p.1))
    ensures '&' !in PairText(p) && '#' !in PairText(p) && PairText(p) != ""
  {
    hide KeyText, PercentOf, PercentDecode, SplitAt;
    KeyClean(p.0);
    PercentClean(p.1);
    CleanLacks(KeyText(p.0), '=');
    SplitFirst(KeyText(p.0), '=', PercentOf(p.1));
    PercentRoundTrip(p.1);
  }

  /** Every pair is read back, in order, whatever the values. */
  lemma {:induction false} QueryRoundTrip(params: seq<Param>)
    ensures ReadQuery(Query(params)) == Some(Texts(params)) && '#' !in Query(params)
    decreases |params|
  {
    hide PairText, ReadPair, SplitAt;
    if |params| == 1 {
      PairRoundTrip(params[0]);
      SplitNone(PairText(params[0]), '&');
      assert Texts(params) == [(KeyText(params[0].0), params[0].1)];
    } else if |params| > 1 {
      PairRoundTrip(params[0]);
      SplitFirst(PairText(params[0]), '&', Query(params[1..]));
      QueryRoundTrip(params[1..]);
    }
  }

  // ---- links ----

  /** `scheme`, credential, host, port, query and label. */
  function Link(env: Env, scheme: string, credential: Bytes, address: Bytes, port: nat, params: seq<Param>,
                tag: Bytes): (link: string)
    ensures |link| >= |scheme| + 3
  {
    scheme + "://" + PercentOf(credential) + "@" + HostText(env, address) + ":" + Decimal(port) + "?" + Query(params)
      + "#" + PercentOf(tag)
  }

  datatype Parts = Parts(credential: Bytes, host: Bytes, port: nat, params: seq<(string, Bytes)>, tag: Bytes)

  /** What a reader makes of the text after the scheme: fragment, query, user, host and port. */
  function ReadLink(s: string): Option<Parts> {
    match SplitAt(s, '#')
    case None => None
    case Some((front, tag)) =>
      match SplitAt(front, '?')
      case None => None
      case Some((authority, query)) =>
        match SplitAt(authority, '@')
        case None => None
        case Some((user, hostPort)) =>
          Assemble(PercentDecode(user), ReadHostPort(hostPort), ReadQuery(query), PercentDecode(tag))
  }

  function Assemble(user: Option<Bytes>, hostPort: Option<(Bytes, nat)>, query: Option<seq<(string, Bytes)>>,
                    tag: Option<Bytes>): Option<Parts>
  {
    if user.None? || hostPort.None? || query.None? || tag.None? then None
    else Some(Parts(user.value, hostPort.value.0, hostPort.value.1, query.value, tag.value))
  }

  /** A link splits back into the credential, host, port, every pair in order and the label, whatever the texts,
      unless the address comes in brackets. */
  lemma LinkRoundTrip(env: Env, scheme: string, credential: Bytes, address: Bytes, port: nat, params: seq<Param>,
                      tag: Bytes)
    requires env.Valid() && !Bracketed(address)
    ensures var link := Link(env, scheme, credential, address, port, params, tag);
      && link[..|scheme| + 3] == scheme + "://"
      && ReadLink(link[|scheme| + 3..]) == Some(Parts(credential, address, port, Texts(params), tag))
  {
    hide PercentOf, PercentDecode, HostText, Decimal, Query, SplitAt, ReadHostPort, ReadQuery, Texts;
    var user, host, digits, query, tagText := PercentOf(credential), HostText(env, address), Decimal(port),
      Query(params), PercentOf(tag);
    var hostPort := host + ":" + digits;
    var authority := user + "@" + hostPort;
    var front := authority + "?" + query;
    var link := Link(env, scheme, credential, address, port, params, tag);
    assert link == (scheme + "://") + (front + "#" + tagText);
    assert link[|scheme| + 3..] == front + "#" + tagText;
    PercentClean(credential);
    HostLacks(env, address);
    DecimalRoundTrip(port);
    QueryRoundTrip(params);
    CleanLacks(user, '#');
    CleanLacks(user, '?');
    CleanLacks(user, '@');
    CleanLacks(digits, '#');
    CleanLacks(digits, '?');
    assert '#' !in authority && '?' !in authority;
    SplitFirst(front, '#', tagText);
    SplitFirst(authority, '?', query);
    SplitFirst(user, '@', hostPort);
    PercentRoundTrip(credential);
    PercentRoundTrip(tag);
    HostPortRoundTrip(env, address, port);
  }

  lemma {:induction false} SplitMeans(s: string, c: char)
    requires SplitAt(s, c).Some?
    ensures var (a, b) := SplitAt(s, c).value; s == a + [c] + b && c !in a
  {
    if s[0] != c {
      SplitMeans(s[1..], c);
      var (a, b) := SplitAt(s[1..], c).value;
      assert s == [s[0]] + s[1..];
      assert [s[0]] + a + [c] + b == s;
    } else {
      assert s == "" + [c] + s[1..];
    }
  }

  /** A host that is read out of brackets holds no closing bracket. */
  lemma {:induction false} UnrawLacks(s: string)
    requires ']' !in s && Unraw(s).Some?
    ensures CLOSE !in Unraw(s).value
  {
    if s != "" {
      UnrawLacks(s[1..]);
    }
  }

  /** A reader takes what starts with a bracket for a bracketed host, and never returns the brackets. */
  lemma BracketHost(s: string, address: Bytes)
    requires s != "" && s[0] == '[' && Bracketed(address) && ReadHostPort(s).Some?
    ensures ReadHostPort(s).value.0 != address
  {
    hide SplitAt, Unraw, ReadDecimal;
    SplitMeans(s[1..], ']');
    var inside := SplitAt(s[1..], ']').value.0;
    UnrawLacks(inside);
    assert CLOSE in address;
  }

  /** With an address in brackets the reader never gets that address back. */
  lemma BracketedLost(env: Env, scheme: string, credential: Bytes, address: Bytes, port: nat, params: seq<Param>,
                      tag: Bytes)
    requires Bracketed(address)
    ensures var read := ReadLink(Link(env, scheme, credential, address, port, params, tag)[|scheme| + 3..]);
      read.Some? ==> read.value.host != address
  {
    hide PercentOf, PercentDecode, Decimal, Query, SplitAt, ReadHostPort, ReadQuery;
    var user := PercentOf(credential);
    var rest := Raw(address) + ":" + Decimal(port) + "?" + Query(params) + "#" + PercentOf(tag);
    var link := Link(env, scheme, credential, address, port, params, tag);
    assert link == (scheme + "://") + (user + "@" + rest);
    var s := link[|scheme| + 3..];
    assert s == user + "@" + rest && rest[0] == '[';
    PercentClean(credential);
    CleanLacks(user, '@');
    if ReadLink(s).Some? {
      SplitMeans(s, '#');
      var (front, after) := SplitAt(s, '#').value;
      SplitMeans(front, '?');
      var (authority, query) := SplitAt(front, '?').value;
      SplitMeans(authority, '@');
      var (user', hostPort) := SplitAt(authority, '@').value;
      assert s == authority + ("?" + query + "#" + after);
      SamePlace(user, rest, user', hostPort, "?" + query + "#" + after);
      assert hostPort != "" by { NoHost(); }
      BracketHost(hostPort, address);
    }
  }

  lemma NoHost()
    ensures ReadHostPort("") == None
  {
  }

  /** The first '@' is where it is. */
  lemma SamePlace(user: string, rest: string, user': string, hostPort: string, after: string)
    requires user + "@" + rest == (user' + "@" + hostPort) + after && '@' !in user && '@' !in user'
    ensures user == user' && rest == hostPort + after
  {
    SplitFirst(user, '@', rest);
    assert (user' + "@" + hostPort) + after == user' + "@" + (hostPort + after);
    SplitFirst(user', '@', hostPort + after);
  }

  /** A link splits back into what was written exactly when its address does not come in brackets. */
  lemma LinkIff(env: Env, scheme: string, credential: Bytes, address: Bytes, port: nat, params: seq<Param>, tag: Bytes)
    requires env.Valid()
    ensures var read := ReadLink(Link(env, scheme, credential, address, port, params, tag)[|scheme| + 3..]);
      read == Some(Parts(credential, address, port, Texts(params), tag)) <==> !Bracketed(address)
  {
    hide ReadLink, Link, Bracketed;
    if Bracketed(address) {
      BracketedLost(env, scheme, credential, address, port, params, tag);
    } else {
      LinkRoundTrip(env, scheme, credential, address, port, params, tag);
    }
  }

  /** A bracketed address is passed through unescaped: here it ends the link and the label is lost in it. */
  lemma BracketedBreaks(env: Env)
    requires !env.isV6([OPEN, 35, CLOSE])
    ensures var link := Link(env, "vless", [], [OPEN, 35, CLOSE], 1, [], []);
      Bracketed([OPEN, 35, CLOSE]) && ReadLink(link[8..]) == None
  {
    hide SplitAt, Decimal, ReadHostPort, ReadQuery, PercentDecode, Assemble;
    var address: Bytes := [OPEN, 35, CLOSE];
    assert Raw(address) == "[#]";
    var rest := "]:" + Decimal(1) + "?#";
    var link := Link(env, "vless", [], address, 1, [], []);
    assert link[8..] == "@[" + "#" + rest;
    SplitFirst("@[", '#', rest);
    SplitNone("@[", '?');
  }
}
