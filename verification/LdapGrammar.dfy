/** The texts api/ldap_client.js takes for an LDAP URL, and the proof that it takes no others. */
module LdapGrammar {
  import opened Bytes
  import opened Text
  import opened TextCase
  import opened LdapClient

  /** How an authority can be written: a host in brackets and the digits of a port, "" for
      none; or a host up to the first colon and whatever follows that. */
  datatype Authority = InBrackets(host: string, digits: string) | Bare(host: string, port: Option<string>)

  datatype Spelling = Spelling(scheme: string, secure: bool, authority: Authority, path: string)

  function PrintAuthority(a: Authority): string {
    match a
    case InBrackets(host, digits) => "[" + host + "]" + PortText(digits)
    case Bare(host, None) => host
    case Bare(host, Some(port)) => host + ":" + port
  }

  function Print(sp: Spelling): string {
    sp.scheme + (PrintAuthority(sp.authority) + sp.path)
  }

  predicate LegalBrackets(host: string, digits: string) {
    host != "" && ']' !in host && AllDigits(digits, 10)
  }

  ghost predicate NotInBrackets(text: string) {
    forall host, digits :: LegalBrackets(host, digits) ==> text != PrintAuthority(InBrackets(host, digits))
  }

  /** Text that can be read as a host in brackets is read as nothing else. */
  ghost predicate LegalAuthority(a: Authority) {
    && NoDelimiter(PrintAuthority(a))
    && match a
       case InBrackets(host, digits) => LegalBrackets(host, digits)
       case Bare(host, port) =>
         host != "" && ':' !in host && NotInBrackets(PrintAuthority(a))
  }

  /** The port a legal authority names: its digits, what `parseInt` finds after the colon
      and before any junk, or the scheme's own. */
  ghost predicate NamesPort(a: Authority, secure: bool, port: nat) {
    match a
    case InBrackets(_, "") => port == if secure then 636 else 389
    case InBrackets(_, digits) => port == Numeral(digits, 10)
    case Bare(_, None) => port == if secure then 636 else 389
    case Bare(_, Some(text)) => Spells(text, port)
  }

  ghost predicate Legal(sp: Spelling) {
    && SameButCase(sp.scheme, SchemeText(sp.secure))
    && LegalAuthority(sp.authority) && IsPath(sp.path)
  }

  ghost predicate Denotes(sp: Spelling, url: Url) {
    && url.secure == sp.secure && url.host == sp.authority.host
    && 1 <= url.port <= 65535 && NamesPort(sp.authority, sp.secure, url.port)
  }

  /** What the regular expression for a host in brackets matches, as the text it matches. */
  lemma BracketedIs(a: string) returns (digits: string)
    requires Bracketed(a).Some?
    ensures var (host, port) := Bracketed(a).value;
            && LegalBrackets(host, digits) && a == PrintAuthority(InBrackets(host, digits))
            && port == if digits == "" then Missing else PortOf(digits)
  {
    hide PortOf, Find;
    var close := Find(a, "]", 0);
    var host, rest := a[1..close], a[close + 1..];
    assert a[close..close + 1] == "]";
    forall i | 0 <= i < |host|
      ensures host[i] != ']'
    {
      assert !OccursAt(a, "]", i + 1) && a[i + 1..i + 2] == [a[i + 1]];
    }
    digits := if rest == "" then "" else rest[1..];
    assert a == "[" + host + "]" + rest;
    assert rest == PortText(digits);
  }

  lemma ReadsBrackets(host: string, digits: string)
    requires LegalBrackets(host, digits)
    ensures Bracketed(PrintAuthority(InBrackets(host, digits))) ==
            Some((host, if digits == "" then Missing else PortOf(digits)))
  {
    hide PortOf, Find;
    var rest := PortText(digits);
    var a := "[" + host + "]" + rest;
    var close := |host| + 1;
    assert a[close..close + 1] == "]";
    forall j: nat | j < close
      ensures !OccursAt(a, "]", j)
    {
      assert a[j..j + 1] == [a[j]];
      assert j > 0 ==> a[j] == host[j - 1];
    }
    FindIs(a, "]", 0, close);
    assert a[1..close] == host && a[close + 1..] == rest;
    if digits != "" { assert rest[1..] == digits; }
  }

  /** The two sides of the first colon. */
  lemma SplitsAtColon(host: string, port: string)
    requires ':' !in host
    ensures var parts := Split(host + ":" + port, ":");
            |parts| > 1 && parts[0] == host && PortOf(parts[1]) == PortOf(port)
  {
    hide ParseInt, Find;
    var a := host + ":" + port;
    assert a[|host|..|host| + 1] == ":";
    forall j: nat | j < |host|
      ensures !OccursAt(a, ":", j)
    {
      assert a[j..j + 1] == [a[j]] && a[j] == host[j];
    }
    FindIs(a, ":", 0, |host|);
    assert a[..|host|] == host && a[|host| + 1..] == port;
    var colon := Find(port, ":", 0);
    if colon != -1 {
      assert port == port[..colon] + ":" + port[colon + 1..];
      ParseIntStops(port[..colon], port[colon + 1..]);
    }
  }

  lemma PortFound(text: string, port: nat)
    ensures PortOf(text) == Port(port) <==> Spells(text, port)
  {
    hide ParseInt;
    if PortOf(text) == Port(port) { FoundIsSpelled(text, port); }
    if Spells(text, port) { SpelledIsFound(text, port); }
  }

  /** What is made of host and port once the authority has been cut out. */
  ghost predicate ReadAs(authority: string, secure: bool, url: Url) {
    var (host, port) := HostAndPort(authority);
    && host != "" && url.secure == secure && url.host == host && 1 <= url.port <= 65535
    && (port == Port(url.port) || (port == Missing && url.port == if secure then 636 else 389))
  }

  lemma RestAccepted(secure: bool, rest: string, url: Url)
    ensures var a := AuthorityOf(rest);
            ParseRest(secure, rest) == Ok(url) <==>
            a != "" && IsPath(rest[|a|..]) && ReadAs(a, secure, url)
  {
    DelimitersAre(rest[|AuthorityOf(rest)|..]);
    hide HostAndPort, AuthorityOf;
  }

  /** An authority is read as the host and port some legal way of writing it names. */
  lemma AuthorityRead(authority: string, secure: bool, url: Url) returns (a: Authority)
    requires authority != "" && NoDelimiter(authority)
    requires ReadAs(authority, secure, url)
    ensures LegalAuthority(a) && PrintAuthority(a) == authority
    ensures Denotes(Spelling("", secure, a, ""), url)
  {
    hide Bracketed, ParseInt, Numeral, Split, Find, Spells, NoDelimiter;
    if Bracketed(authority).Some? {
      var digits := BracketedIs(authority);
      a := InBrackets(Bracketed(authority).value.0, digits);
      if digits != "" { ParseIntNumeral(digits, 10); }
    } else {
      NoBrackets(authority);
      var colon := Find(authority, ":", 0);
      if colon == -1 {
        NoColon(authority);
        a := Bare(authority, None);
      } else {
        var host, port := authority[..colon], authority[colon + 1..];
        CutAtColon(authority);
        SplitsAtColon(host, port);
        PortFound(port, url.port);
        a := Bare(host, Some(port));
      }
    }
  }

  lemma NoBrackets(text: string)
    ensures Bracketed(text).None? <==> NotInBrackets(text)
  {
    hide Bracketed;
    if Bracketed(text).Some? {
      var digits := BracketedIs(text);
      var host := Bracketed(text).value.0;
      assert LegalBrackets(host, digits) && text == PrintAuthority(InBrackets(host, digits));
    } else {
      forall host, digits | LegalBrackets(host, digits)
        ensures text != PrintAuthority(InBrackets(host, digits))
      {
        ReadsBrackets(host, digits);
      }
    }
  }

  lemma NoColon(authority: string)
    requires Find(authority, ":", 0) == -1
    ensures Split(authority, ":") == [authority] && ':' !in authority
  {
    FindChar(authority, ':');
  }

  lemma CutAtColon(authority: string)
    requires Find(authority, ":", 0) != -1
    ensures var colon := Find(authority, ":", 0);
            ':' !in authority[..colon] && authority == authority[..colon] + ":" + authority[colon + 1..]
  {
    var colon := Find(authority, ":", 0);
    assert authority[colon..colon + 1] == ":";
    forall i | 0 <= i < colon
      ensures authority[i] != ':'
    {
      assert !OccursAt(authority, ":", i) && authority[i..i + 1] == [authority[i]];
    }
  }

  lemma LegalIsRead(a: Authority, secure: bool, url: Url)
    requires LegalAuthority(a) && Denotes(Spelling("", secure, a, ""), url)
    ensures PrintAuthority(a) != "" && ReadAs(PrintAuthority(a), secure, url)
  {
    hide Bracketed, ParseInt, Numeral, Split, Find, Spells;
    var authority := PrintAuthority(a);
    match a
    case InBrackets(host, digits) =>
      ReadsBrackets(host, digits);
      if digits != "" { ParseIntNumeral(digits, 10); }
    case Bare(host, port) =>
      NoBrackets(authority);
      if port.None? {
        FindChar(host, ':');
        NoColon(host);
      } else {
        SplitsAtColon(host, port.value);
        PortFound(port.value, url.port);
      }
  }

  lemma SchemeOf(text: string, url: Url) returns (n: nat)
    requires ParseTrimmed(text) == Ok(url)
    ensures n <= |text| && ParseRest(url.secure, text[n..]) == Ok(url)
    ensures LowerAscii(text[..n]) == if url.secure then "ldaps://" else "ldap://"
  {
    hide HostAndPort, AuthorityOf;
    n := if After(text, "ldap://").Some? then 7 else 8;
  }

  lemma AcceptedIsSpelled(value: string, url: Url) returns (sp: Spelling)
    requires ParseLdapUrl(value) == Ok(url)
    ensures Legal(sp) && Trim(value) == Print(sp) && Denotes(sp, url)
  {
    hide Trim, ParseTrimmed, ParseRest, AuthorityOf, ReadAs, LegalAuthority, IsPath, NamesPort, SameButCase;
    var text := Trim(value);
    var n := SchemeOf(text, url);
    var rest := text[n..];
    var authority := AuthorityOf(rest);
    RestAccepted(url.secure, rest, url);
    DelimitersAre(authority);
    var a := AuthorityRead(authority, url.secure, url);
    LoweredIs(text[..n], url.secure);
    sp := Spelling(text[..n], url.secure, a, rest[|authority|..]);
    assert rest == authority + rest[|authority|..];
    assert text == text[..n] + rest;
  }

  lemma SpelledIsAccepted(value: string, url: Url, sp: Spelling)
    requires Legal(sp) && Trim(value) == Print(sp) && Denotes(sp, url)
    ensures ParseLdapUrl(value) == Ok(url)
  {
    var a := PrintAuthority(sp.authority);
    DelimitersAre(a);
    AuthorityThenPath(a, sp.path);
    LoweredIs(sp.scheme, sp.secure);
    hide Trim, ParseTrimmed, ParseRest, AuthorityOf, ReadAs, IsPath, NamesPort;
    assert (a + sp.path)[|a|..] == sp.path;
    LegalIsRead(sp.authority, sp.secure, url);
    RestAccepted(sp.secure, a + sp.path, url);
    ReadsScheme(sp.scheme, sp.secure, a + sp.path);
  }

  /** A text is accepted as a URL exactly when, trimmed, it is the print of a legal spelling
      that denotes the URL. What is legal is wider than the URLs of section 2 of RFC 4516:
      a port may carry white space, a plus sign and junk, and another colon ends it. */
  lemma AcceptsExactly(value: string, url: Url)
    ensures ParseLdapUrl(value) == Ok(url) <==>
            exists sp :: Legal(sp) && Trim(value) == Print(sp) && Denotes(sp, url)
  {
    hide Trim, ParseLdapUrl, Legal, Print, Denotes;
    if ParseLdapUrl(value) == Ok(url) {
      var sp := AcceptedIsSpelled(value, url);
    }
    if sp :| Legal(sp) && Trim(value) == Print(sp) && Denotes(sp, url) {
      SpelledIsAccepted(value, url, sp);
    }
  }

  /** A port may be followed by anything that does not start with a digit, although a
      refusal promises a number: what follows is not looked at. */
  lemma PortMayCarryJunk(host: string, port: nat, junk: string)
    requires IsAddressText(host, false) && 1 <= port <= 65535
    requires junk != "" && DigitOf(junk[0]) >= 10 && !IsSpace(junk[|junk| - 1])
    requires NoDelimiter(junk)
    ensures ParseLdapUrl("ldap://" + (host + ":" + (ToNumeral(port, 10) + junk))) == Ok(Url(false, host, port))
  {
    var digits := ToNumeral(port, 10);
    var a, text := Bare(host, Some(digits + junk)), host + ":" + (digits + junk);
    SameScheme(false);
    LoweredIs("ldap://", false);
    JunkIsLegal(host, digits, junk);
    assert text[|text| - 1] == junk[|junk| - 1] && text + "" == text;
    hide ParseLdapUrl, Trim, ToNumeral, Numeral, Spells, LowerAscii, LegalAuthority, IsAddressText;
    NothingToTrim("ldap://", false, text);
    SpelledIsAccepted("ldap://" + text, Url(false, host, port), Spelling("ldap://", false, a, ""));
  }

  lemma JunkIsLegal(host: string, digits: string, junk: string)
    requires IsAddressText(host, false) && digits != "" && AllDigits(digits, 10)
    requires junk != "" && DigitOf(junk[0]) >= 10 && NoDelimiter(junk)
    ensures LegalAuthority(Bare(host, Some(digits + junk))) && Spells(digits + junk, Numeral(digits, 10))
  {
    JunkDelimitsNothing(host, digits, junk);
    FromABracket(host, digits + junk);
    JunkSpells(digits, junk);
    hide AllDigits, Numeral, Spells, NotInBrackets;
  }

  lemma JunkSpells(digits: string, junk: string)
    requires digits != "" && AllDigits(digits, 10)
    requires junk != "" && DigitOf(junk[0]) >= 10
    ensures Spells(digits + junk, Numeral(digits, 10))
  {
    hide AllDigits, Numeral, Spells;
    SpellsBy("", "", digits, junk);
    assert "" + ("" + (digits + junk)) == digits + junk;
  }

  lemma FromABracket(host: string, port: string)
    requires host != "" && host[0] != '['
    ensures NotInBrackets(PrintAuthority(Bare(host, Some(port))))
  {
    assert (host + ":" + port)[0] == host[0];
    assert forall h, d :: PrintAuthority(InBrackets(h, d))[0] == '[';
  }

  lemma JunkDelimitsNothing(host: string, digits: string, junk: string)
    requires IsAddressText(host, false) && AllDigits(digits, 10) && NoDelimiter(junk)
    ensures NoDelimiter(host + ":" + (digits + junk))
  {
    assert DigitOf('/') == 16 && DigitOf('?') == 16 && DigitOf('#') == 16;
  }

  // ----------------------------------------------------------------- refusals

  /** A scheme in either case, an authority and a path, whatever the authority is. */
  ghost predicate Shaped(text: string, secure: bool, scheme: string, authority: string, path: string) {
    && SameButCase(scheme, SchemeText(secure)) && authority != "" && NoDelimiter(authority) && IsPath(path)
    && text == scheme + (authority + path)
  }

  lemma HostMissing(authority: string)
    requires authority != ""
    ensures HostAndPort(authority).0 == "" <==> authority[0] == ':'
  {
    hide PortOf, Find;
    if Bracketed(authority).Some? {
      var digits := BracketedIs(authority);
    } else {
      hide Bracketed;
      if Find(authority, ":", 0) == -1 {
        NoColon(authority);
      } else {
        CutAtColon(authority);
        var colon := Find(authority, ":", 0);
        SplitsAtColon(authority[..colon], authority[colon + 1..]);
      }
    }
  }

  lemma ShapedRest(secure: bool, authority: string, path: string)
    requires authority != "" && NoDelimiter(authority) && IsPath(path)
    ensures ParseRest(secure, authority + path) != Err(NotAnLdapUrl)
    ensures ParseRest(secure, authority + path) == Err(NoHost) <==> authority[0] == ':'
  {
    hide HostAndPort, AuthorityOf, IsPath, NoDelimiter;
    DelimitersAre(authority);
    IsPathHelps(path);
    AuthorityThenPath(authority, path);
    assert (authority + path)[|authority|..] == path;
    HostMissing(authority);
  }

  lemma ShapedIsRead(text: string, secure: bool, scheme: string, authority: string, path: string)
    requires Shaped(text, secure, scheme, authority, path)
    ensures authority != "" && ParseTrimmed(text) != Err(NotAnLdapUrl)
    ensures ParseTrimmed(text) == Err(NoHost) <==> authority[0] == ':'
  {
    hide ParseRest, ParseTrimmed, IsPath, NoDelimiter, SameButCase, LowerAscii;
    LoweredIs(scheme, secure);
    ReadsScheme(scheme, secure, authority + path);
    ShapedRest(secure, authority, path);
  }

  lemma ReadIsShaped(text: string) returns (secure: bool, scheme: string, authority: string, path: string)
    requires ParseTrimmed(text) != Err(NotAnLdapUrl)
    ensures Shaped(text, secure, scheme, authority, path)
  {
    hide HostAndPort, AuthorityOf, SameButCase, LowerAscii, IsPath, NoDelimiter;
    secure := After(text, "ldap://").None?;
    var n := if secure then 8 else 7;
    scheme := text[..n];
    var rest := text[n..];
    authority := AuthorityOf(rest);
    path := rest[|authority|..];
    LoweredIs(scheme, secure);
    DelimitersAre(authority);
    PathOfRest(secure, rest);
    assert text == scheme + (authority + path);
  }

  lemma PathOfRest(secure: bool, rest: string)
    requires ParseRest(secure, rest) != Err(NotAnLdapUrl)
    ensures AuthorityOf(rest) != "" && IsPath(rest[|AuthorityOf(rest)|..])
  {
    hide HostAndPort;
    DelimitersAre(rest[|AuthorityOf(rest)|..]);
  }

  /** Which refusal a text gets: as no LDAP URL exactly when it has not the shape of one, as
      naming no host exactly when its authority starts with a colon, and for its port in
      every other case in which it is not accepted. */
  lemma RefusedExactly(value: string)
    ensures ParseLdapUrl(value) == Err(NotAnLdapUrl) <==>
            !exists secure, scheme, authority, path :: Shaped(Trim(value), secure, scheme, authority, path)
    ensures ParseLdapUrl(value) == Err(NoHost) <==>
            exists secure, scheme, authority, path ::
              Shaped(Trim(value), secure, scheme, authority, path) && authority[0] == ':'
  {
    hide Trim, ParseTrimmed, Shaped;
    var text := Trim(value);
    if ParseTrimmed(text) != Err(NotAnLdapUrl) {
      var secure, scheme, authority, path := ReadIsShaped(text);
      ShapedIsRead(text, secure, scheme, authority, path);
      assert Shaped(text, secure, scheme, authority, path);
    }
    forall secure, scheme, authority, path | Shaped(text, secure, scheme, authority, path)
      ensures ParseTrimmed(text) != Err(NotAnLdapUrl) && authority != ""
      ensures ParseTrimmed(text) == Err(NoHost) <==> authority[0] == ':'
    {
      ShapedIsRead(text, secure, scheme, authority, path);
    }
  }
}
