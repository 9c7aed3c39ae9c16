/** api/ldap_client.js: LDAP URLs, the URL that is dialled, and a search under two caps. */
module LdapClient {
  import opened Bytes
  import opened Text
  import opened TextCase

  // --------------------------------------------------------------------- URLs

  datatype Url = Url(secure: bool, host: string, port: nat)

  datatype UrlError = NotAnLdapUrl | NoHost | BadPort

  predicate EndsAuthority(c: char) {
    c == '/' || c == '?' || c == '#'
  }

  predicate BreaksLine(c: char) {
    c == '\n' || c == '\r' || c == '\U{2028}' || c == '\U{2029}'
  }

  /** The run of characters before the first of "/", "?" and "#". */
  function AuthorityOf(s: string): (a: string)
    ensures a <= s
    ensures forall i :: 0 <= i < |a| ==> !EndsAuthority(a[i])
    ensures |a| < |s| ==> EndsAuthority(s[|a|])
  {
    if s == "" || EndsAuthority(s[0]) then "" else [s[0]] + AuthorityOf(s[1..])
  }

  function LowerAscii(s: string): (t: string)
    ensures |t| == |s|
  {
    seq(|s|, i requires 0 <= i < |s| => if 'A' <= s[i] <= 'Z' then (s[i] as int + 32) as char else s[i])
  }

  function After(s: string, prefix: string): Option<string> {
    if |prefix| <= |s| && LowerAscii(s[..|prefix|]) == prefix then Some(s[|prefix|..]) else None
  }

  /** Host and port of an authority; a missing port is None, one that is no number NaN. */
  datatype Port = Missing | NaN | Port(value: int)

  function PortOf(digits: string): Port {
    match ParseInt(digits, 10)
    case None => NaN
    case Some(n) => Port(n)
  }

  /** `^\[([^\]]+)\](?::(\d+))?$` */
  function Bracketed(authority: string): Option<(string, Port)> {
    if authority == "" || authority[0] != '[' then None
    else
      var close := Find(authority, "]", 0);
      if close <= 1 then None
      else
        var rest := authority[close + 1..];
        if rest == "" then Some((authority[1..close], Missing))
        else if rest[0] == ':' && |rest| > 1 && AllDigits(rest[1..], 10) then
          Some((authority[1..close], PortOf(rest[1..])))
        else None
  }

  function HostAndPort(authority: string): (string, Port) {
    match Bracketed(authority)
    case Some(found) => found
    case None =>
      var parts := Split(authority, ":");
      (parts[0], if |parts| > 1 then PortOf(parts[1]) else Missing)
  }

  function ParseRest(secure: bool, rest: string): Result<Url, UrlError> {
    var authority := AuthorityOf(rest);
    var path := rest[|authority|..];
    if authority == "" || (path != "" && path[0] != '/') || exists i :: 0 <= i < |path| && BreaksLine(path[i])
    then Err(NotAnLdapUrl)
    else
      var (host, port) := HostAndPort(authority);
      if host == "" then Err(NoHost)
      else match port
        case Missing => Ok(Url(secure, host, if secure then 636 else 389))
        case NaN => Err(BadPort)
        case Port(n) => if n < 1 || n > 65535 then Err(BadPort) else Ok(Url(secure, host, n))
  }

  function ParseLdapUrl(value: string): Result<Url, UrlError> {
    ParseTrimmed(Trim(value))
  }

  function ParseTrimmed(text: string): Result<Url, UrlError> {
    match After(text, "ldap://")
    case Some(rest) => ParseRest(false, rest)
    case None =>
      match After(text, "ldaps://")
      case Some(rest) => ParseRest(true, rest)
      case None => Err(NotAnLdapUrl)
  }

  function HostText(address: string, v6: bool): string {
    if v6 then "[" + address + "]" else address
  }

  function PortText(digits: string): string {
    if digits == "" then "" else ":" + digits
  }

  /** The URL `connectAndBind` hands to the library: the address that was checked. */
  function Dialled(secure: bool, address: string, v6: bool, port: nat): string {
    (if secure then "ldaps://" else "ldap://") + (HostText(address, v6) + ":" + ToNumeral(port, 10))
  }

  /** Free of what ends an authority (section 3.2 of RFC 3986), and of line terminators. */
  predicate NoDelimiter(s: string) {
    '/' !in s && '?' !in s && '#' !in s
  }

  predicate OneLine(s: string) {
    '\n' !in s && '\r' !in s && '\U{2028}' !in s && '\U{2029}' !in s
  }

  lemma DelimitersAre(s: string)
    ensures NoDelimiter(s) <==> forall i :: 0 <= i < |s| ==> !EndsAuthority(s[i])
    ensures OneLine(s) <==> !(exists i :: 0 <= i < |s| && BreaksLine(s[i]))
  {
    if !NoDelimiter(s) {
      var c :| c in s && (c == '/' || c == '?' || c == '#');
      var i :| 0 <= i < |s| && s[i] == c;
    }
    if !OneLine(s) {
      var c :| c in s && (c == '\n' || c == '\r' || c == '\U{2028}' || c == '\U{2029}');
      var i :| 0 <= i < |s| && s[i] == c;
    }
  }

  /** Text a host can be written as: no URL delimiter, no closing bracket, and no colon or
      opening bracket unless it is written in brackets. */
  predicate IsHostText(host: string, v6: bool) {
    && NoDelimiter(host) && ']' !in host
    && (!v6 ==> ':' !in host && (host == "" || host[0] != '['))
  }

  predicate IsAddressText(address: string, v6: bool) {
    address != "" && IsHostText(address, v6)
  }

  /** The host read: the one written, but that brackets around nothing are a host. */
  function HostRead(host: string, v6: bool): string {
    if host == "" && v6 then "[]" else host
  }

  lemma BracketedReads(address: string, d: string)
    requires IsAddressText(address, true) && d != "" && AllDigits(d, 10)
    ensures HostAndPort("[" + address + "]" + ":" + d) == (address, PortOf(d))
  {
    hide PortOf, Find;
    var s := "[" + address + "]" + ":" + d;
    var close := |address| + 1;
    assert s[close..close + 1] == "]";
    forall j: nat | j < close
      ensures !OccursAt(s, "]", j)
    {
      assert s[j..j + 1] == [s[j]];
      assert j > 0 ==> s[j] == address[j - 1];
    }
    FindIs(s, "]", 0, close);
    assert s[1..close] == address && s[close + 1..] == ":" + d && (":" + d)[1..] == d;
  }

  lemma PlainReads(host: string, d: string)
    requires ':' !in host && Bracketed(host + ":" + d).None? && ':' !in d
    ensures HostAndPort(host + ":" + d) == (host, PortOf(d))
  {
    hide PortOf, Bracketed;
    SplitJoin([host, d], ':');
    assert [host, d][1..] == [d];
    assert Join([host, d], ":") == host + ":" + d;
  }

  /** What does not start with a bracket, or has nothing between its brackets. */
  lemma NotBracketed(host: string, rest: string)
    requires (IsHostText(host, false) && (host != "" || rest == "" || rest[0] != '[')) || host == "[]"
    ensures Bracketed(host + rest).None?
  {
    var s := host + rest;
    if host == "[]" {
      assert s[1..2] == "]" && s[0..1] == "[";
      FindIs(s, "]", 0, 1);
    } else if host != "" {
      assert s[0] == host[0];
    }
  }

  /** The scheme is read in any case. */
  lemma ReadsScheme(scheme: string, secure: bool, rest: string)
    requires LowerAscii(scheme) == if secure then "ldaps://" else "ldap://"
    ensures ParseTrimmed(scheme + rest) == ParseRest(secure, rest)
  {
    hide ParseRest;
    var s := scheme + rest;
    assert s[..|scheme|] == scheme && s[|scheme|..] == rest;
    if secure {
      var t := LowerAscii(s[..7]);
      assert t[4] == LowerAscii(scheme)[4] == 's';
      assert t != "ldap://" by { assert "ldap://"[4] == ':'; }
    }
  }

  lemma NothingToTrim(scheme: string, secure: bool, rest: string)
    requires LowerAscii(scheme) == if secure then "ldaps://" else "ldap://"
    requires rest == "" || !IsSpace(rest[|rest| - 1])
    ensures Trim(scheme + rest) == scheme + rest
  {
    hide Trim;
    var s := scheme + rest;
    assert LowerAscii(scheme)[0] == 'l' && scheme[0] == s[0];
    assert LowerAscii(scheme)[|scheme| - 1] == '/';
    assert s[|s| - 1] == if rest == "" then scheme[|scheme| - 1] else rest[|rest| - 1];
    TrimKeeps(s);
  }

  /** What may follow the authority: nothing, or a path on one line. */
  predicate IsPath(path: string) {
    path == "" || (path[0] == '/' && OneLine(path))
  }

  lemma {:induction false} AuthorityThenPath(a: string, path: string)
    requires (forall i :: 0 <= i < |a| ==> !EndsAuthority(a[i])) && (path == "" || path[0] == '/')
    ensures AuthorityOf(a + path) == a
  {
    if a == "" {
      assert a + path == path;
    } else {
      assert (a + path)[1..] == a[1..] + path;
      AuthorityThenPath(a[1..], path);
    }
  }

  /** The scheme in either case of each letter. */
  function SchemeText(secure: bool): string {
    if secure then "ldaps://" else "ldap://"
  }

  lemma CapitalAt(c: char) returns (i: nat)
    requires 'A' <= c <= 'Z'
    ensures i < 26 && CAPITALS[i] == c && SMALLS[i] as int == c as int + 32
  {
    i := c as int - 'A' as int;
    CapitalIs(i);
    SmallIs(i);
  }

  lemma SameWhenLowered(c: char, d: char)
    requires !('A' <= d <= 'Z')
    ensures LowerAscii([c])[0] == d <==> SameLetter(c, d)
  {
    hide LowerAscii, SameLetter;
    LowersOne(c);
    if 'A' <= c <= 'Z' { CapitalIsSame(c, d); }
    if SameLetter(c, d) { SameIsLowered(c, d); }
    SelfIsSame(c);
  }

  lemma LowersOne(c: char)
    ensures LowerAscii([c])[0] == if 'A' <= c <= 'Z' then (c as int + 32) as char else c
  {
  }

  lemma SelfIsSame(c: char)
    ensures SameLetter(c, c)
  {
  }

  lemma CapitalIsSame(c: char, d: char)
    requires 'A' <= c <= 'Z'
    ensures d as int == c as int + 32 ==> SameLetter(c, d)
  {
    var i := CapitalAt(c);
    hide CAPITALS, SMALLS;
    assert d == SMALLS[i] ==> SameAt(c, d, i);
  }

  lemma SameIsLowered(c: char, d: char)
    requires SameLetter(c, d) && !('A' <= d <= 'Z')
    ensures d == if 'A' <= c <= 'Z' then (c as int + 32) as char else c
  {
    hide SameAt, CAPITALS, SMALLS;
    if c != d {
      var i: nat :| i < 26 && SameAt(c, d, i);
      SameAtIs(c, d, i);
    }
  }

  lemma LoweredIs(s: string, secure: bool)
    ensures LowerAscii(s) == SchemeText(secure) <==> SameButCase(s, SchemeText(secure))
  {
    var t := SchemeText(secure);
    NoCapitalInScheme(secure);
    hide SameLetter, SchemeText;
    if |s| == |t| {
      forall i | 0 <= i < |s|
        ensures LowerAscii(s)[i] == t[i] <==> SameLetter(s[i], t[i])
      {
        SameWhenLowered(s[i], t[i]);
      }
    }
  }

  lemma NoCapitalInScheme(secure: bool)
    ensures forall i :: 0 <= i < |SchemeText(secure)| ==> !('A' <= SchemeText(secure)[i] <= 'Z')
  {
  }

  /** Every LDAP URL: in any case, with a bracketed or a bare host, with or without a port
      and a path. The host and port read are the ones written, or the scheme's own port;
      without a host it is refused, as no URL at all when there is no port either. */
  lemma ReadsEveryUrl(scheme: string, secure: bool, host: string, v6: bool, digits: string, path: string)
    requires SameButCase(scheme, SchemeText(secure))
    requires IsHostText(host, v6) && AllDigits(digits, 10) && IsPath(path)
    requires var rest := HostText(host, v6) + PortText(digits) + path;
             rest == "" || !IsSpace(rest[|rest| - 1])
    ensures var rest := HostText(host, v6) + PortText(digits) + path;
            var port := if digits == "" then (if secure then 636 else 389) else Numeral(digits, 10);
            ParseLdapUrl(scheme + rest) ==
            if host == "" && !v6 then Err(if digits == "" then NotAnLdapUrl else NoHost)
            else if 1 <= port <= 65535 then Ok(Url(secure, HostRead(host, v6), port))
            else Err(BadPort)
  {
    LoweredIs(scheme, secure);
    hide HostAndPort, AuthorityOf, ParseTrimmed, Numeral, LowerAscii, IsPath, Trim, SameButCase;
    var a := HostText(host, v6) + PortText(digits);
    AuthorityText(host, v6, digits);
    IsPathHelps(path);
    AuthorityThenPath(a, path);
    assert (a + path)[|a|..] == path;
    NothingToTrim(scheme, secure, a + path);
    ReadsScheme(scheme, secure, a + path);
  }

  /** The dialled URL names exactly the scheme, address and port it was printed from: in
      brackets or out of them, read back it is what was checked. */
  lemma DialledReadsBack(secure: bool, address: string, v6: bool, port: nat)
    requires IsAddressText(address, v6) && 1 <= port <= 65535
    ensures ParseLdapUrl(Dialled(secure, address, v6, port)) == Ok(Url(secure, address, port))
  {
    var digits := ToNumeral(port, 10);
    SameScheme(secure);
    hide ParseLdapUrl, ParseRest, Numeral, ToNumeral, SameButCase, IsAddressText, HostText;
    var host := HostText(address, v6);
    DigitIsNotSpace(digits[|digits| - 1]);
    assert host + PortText(digits) + "" == host + ":" + digits;
    ReadsEveryUrl(SchemeText(secure), secure, address, v6, digits, "");
  }

  lemma SameScheme(secure: bool)
    ensures SameButCase(SchemeText(secure), SchemeText(secure))
  {
  }

  lemma DigitIsNotSpace(c: char)
    requires DigitOf(c) < 10
    ensures !IsSpace(c)
  {
  }

  lemma IsPathHelps(path: string)
    requires IsPath(path)
    ensures path != "" ==> path[0] == '/'
    ensures !(exists i :: 0 <= i < |path| && BreaksLine(path[i]))
  {
    DelimitersAre(path);
  }

  lemma AuthorityText(host: string, v6: bool, digits: string)
    requires IsHostText(host, v6) && AllDigits(digits, 10)
    ensures var a := HostText(host, v6) + PortText(digits);
            && (a == "" <==> host == "" && !v6 && digits == "")
            && (forall i :: 0 <= i < |a| ==> !EndsAuthority(a[i]))
            && HostAndPort(a) == (HostRead(host, v6), if digits == "" then Missing else Port(Numeral(digits, 10)))
  {
    DelimitersAre(host);
    hide Numeral, ParseInt, Split, Bracketed, Find, HostAndPort, NoDelimiter;
    forall c: char | DigitOf(c) < 10
      ensures !EndsAuthority(c) && c != ':'
    {
    }
    var text := HostText(host, v6);
    if digits != "" { ParseIntNumeral(digits, 10); }
    if v6 && host != "" {
      if digits == "" {
        assert text + "" == text;
        BracketedAlone(host);
      } else {
        assert "[" + host + "]" + ":" + digits == text + (":" + digits);
        BracketedReads(host, digits);
      }
    } else {
      assert "[" + "" + "]" == "[]";
      if digits == "" {
        assert text + "" == text;
        BareAlone(text);
      } else {
        assert text + ":" + digits == text + (":" + digits);
        NotBracketed(text, ":" + digits);
        PlainReads(text, digits);
      }
    }
  }

  lemma BracketedAlone(address: string)
    requires IsAddressText(address, true)
    ensures HostAndPort("[" + address + "]") == (address, Missing)
  {
    hide Find;
    var s := "[" + address + "]";
    var close := |address| + 1;
    assert s[close..close + 1] == "]";
    forall j: nat | j < close
      ensures !OccursAt(s, "]", j)
    {
      assert s[j..j + 1] == [s[j]];
      assert j > 0 ==> s[j] == address[j - 1];
    }
    FindIs(s, "]", 0, close);
    assert s[1..close] == address && s[close + 1..] == "";
  }

  lemma BareAlone(host: string)
    requires IsHostText(host, false) || host == "[]"
    ensures HostAndPort(host) == (host, Missing)
  {
    hide Find, Bracketed;
    assert host + "" == host;
    NotBracketed(host, "");
    FindChar(host, ':');
    assert Split(host, ":") == [host];
  }

  // ------------------------------------------------------------------- search

  /** A flattened entry as the JSON it is measured by. */
  type Entry = string

  datatype Caps = Caps(maxEntries: nat, maxResultBytes: nat)

  datatype Truncation = TooMany | TooBig | Referred

  datatype Answer = Answer(entries: seq<Entry>, truncated: Option<Truncation>, ok: bool, code: int)

  datatype Event = SearchEntry(entry: Entry) | SearchReference | Failed(code: int) | End(status: int)

  datatype State = State(entries: seq<Entry>, bytes: nat, truncated: Option<Truncation>, answer: Option<Answer>)

  function Done(s: State, ok: bool, code: int): State {
    if s.answer.Some? then s else s.(answer := Some(Answer(s.entries, s.truncated, ok, code)))
  }

  function Step(caps: Caps, s: State, e: Event): State {
    match e
    case SearchEntry(entry) =>
      if |s.entries| >= caps.maxEntries then s.(truncated := Some(TooMany))
      else
        var t := s.(bytes := s.bytes + |entry|);
        if t.bytes > caps.maxResultBytes then t.(truncated := Some(TooBig))
        else t.(entries := t.entries + [entry])
    case SearchReference => s.(truncated := Some(Referred))
    case Failed(code) => Done(s, false, code)
    case End(status) => Done(s, status == 0, status)
  }

  /** The handlers of `doSearch`. */
  class Search {
    const caps: Caps
    var entries: seq<Entry>
    var bytes: nat
    var truncated: Option<Truncation>
    var settled: bool
    var answer: Option<Answer>

    ghost predicate Valid()
      reads this
    {
      settled == answer.Some?
    }

    function View(): State
      reads this
    {
      State(entries, bytes, truncated, answer)
    }

    constructor (caps: Caps)
      ensures Valid() && this.caps == caps && View() == State([], 0, None, None)
    {
      this.caps := caps;
      entries, bytes, truncated, settled, answer := [], 0, None, false, None;
    }

    method Finish(ok: bool, code: int)
      requires Valid()
      modifies this
      ensures Valid() && View() == Done(old(View()), ok, code)
    {
      if settled {
        return;
      }
      settled := true;
      answer := Some(Answer(entries, truncated, ok, code));
    }

    method OnEntry(entry: Entry)
      requires Valid()
      modifies this
      ensures Valid() && View() == Step(caps, old(View()), SearchEntry(entry))
    {
      if |entries| >= caps.maxEntries {
        truncated := Some(TooMany);
        return;
      }
      bytes := bytes + |entry|;
      if bytes > caps.maxResultBytes {
        truncated := Some(TooBig);
        return;
      }
      entries := entries + [entry];
    }

    method OnReference()
      requires Valid()
      modifies this
      ensures Valid() && View() == Step(caps, old(View()), SearchReference)
    {
      truncated := Some(Referred);
    }

    method OnError(code: int)
      requires Valid()
      modifies this
      ensures Valid() && View() == Step(caps, old(View()), Failed(code))
    {
      Finish(false, code);
    }

    method OnEnd(status: int)
      requires Valid()
      modifies this
      ensures Valid() && View() == Step(caps, old(View()), End(status))
    {
      Finish(status == 0, status);
    }
  }

  function Run(caps: Caps, s: State, events: seq<Event>): State
    decreases |events|
  {
    if events == [] then s else Run(caps, Step(caps, s, events[0]), events[1..])
  }

  /** The entries the directory sent before it was done. */
  function Sent(events: seq<Event>): seq<Entry> {
    if events == [] || events[0].Failed? || events[0].End? then []
    else (if events[0].SearchEntry? then [events[0].entry] else []) + Sent(events[1..])
  }

  predicate ReferredTo(events: seq<Event>) {
    if events == [] || events[0].Failed? || events[0].End? then false
    else events[0].SearchReference? || ReferredTo(events[1..])
  }

  /** The event that ends a search: the first error or end. */
  function Ending(events: seq<Event>): Option<Event> {
    if events == [] then None
    else if events[0].Failed? || events[0].End? then Some(events[0])
    else Ending(events[1..])
  }

  /** Success and result code as the ending event gives them. */
  predicate EndedBy(answer: Answer, e: Event) {
    match e
    case Failed(code) => !answer.ok && answer.code == code
    case End(status) => answer.ok == (status == 0) && answer.code == status
    case _ => false
  }

  /** `kept` is the longest prefix of `sent` within both caps. */
  ghost predicate LongestWithin(caps: Caps, kept: seq<Entry>, sent: seq<Entry>) {
    && kept <= sent && |kept| <= caps.maxEntries && Total(kept) <= caps.maxResultBytes
    && (|kept| < |sent| ==> |kept| == caps.maxEntries || Total(sent[..|kept| + 1]) > caps.maxResultBytes)
  }

  ghost predicate Collecting(caps: Caps, s: State, sent: seq<Entry>, referred: bool) {
    && s.answer.None? && LongestWithin(caps, s.entries, sent)
    && (s.bytes == Total(s.entries) || s.bytes > caps.maxResultBytes)
    && (|s.entries| < |sent| && |s.entries| < caps.maxEntries ==> s.bytes > caps.maxResultBytes)
    && (s.bytes > caps.maxResultBytes ==> |s.entries| < |sent|)
    && (s.truncated.Some? <==> |s.entries| < |sent| || referred)
  }

  lemma EntryKeeps(caps: Caps, s: State, sent: seq<Entry>, referred: bool, entry: Entry)
    requires Collecting(caps, s, sent, referred)
    ensures Collecting(caps, Step(caps, s, SearchEntry(entry)), sent + [entry], referred)
  {
    hide Total;
    TotalSnoc(s.entries, entry);
    var more := sent + [entry];
    if |s.entries| < |sent| {
      assert more[..|s.entries| + 1] == sent[..|s.entries| + 1];
    } else {
      assert s.entries == sent && more[..|sent| + 1] == more;
    }
  }

  lemma {:induction false} AnswerStays(caps: Caps, s: State, events: seq<Event>)
    requires s.answer.Some?
    ensures Run(caps, s, events).answer == s.answer
    decreases |events|
  {
    if events != [] {
      AnswerStays(caps, Step(caps, s, events[0]), events[1..]);
    }
  }

  /** For every order of events: the answer is given once, at the first end or error and
      with its result, and holds exactly the longest prefix of the entries sent that is
      within both caps; it is marked truncated exactly when an entry was left out or a
      referral was not followed. */
  lemma {:induction false} SearchAnswer(caps: Caps, s: State, sent: seq<Entry>, referred: bool, events: seq<Event>)
    requires Collecting(caps, s, sent, referred)
    ensures var d := Run(caps, s, events);
            var all := sent + Sent(events);
            && (d.answer.Some? <==> Ending(events).Some?)
            && (d.answer.None? ==> Collecting(caps, d, all, referred || ReferredTo(events)))
            && (d.answer.Some? ==>
                  && EndedBy(d.answer.value, Ending(events).value)
                  && LongestWithin(caps, d.answer.value.entries, all)
                  && (d.answer.value.truncated.Some? <==>
                        |d.answer.value.entries| < |all| || referred || ReferredTo(events)))
    decreases |events|
  {
    hide LongestWithin;
    if events == [] {
      assert sent + [] == sent;
    } else {
      var e := events[0];
      var t := Step(caps, s, e);
      match e
      case SearchEntry(entry) =>
        EntryKeeps(caps, s, sent, referred, entry);
        assert sent + Sent(events) == (sent + [entry]) + Sent(events[1..]);
        SearchAnswer(caps, t, sent + [entry], referred, events[1..]);
      case SearchReference =>
        assert sent + Sent(events) == sent + Sent(events[1..]);
        SearchAnswer(caps, t, sent, true, events[1..]);
      case _ =>
        assert sent + Sent(events) == sent;
        AnswerStays(caps, t, events[1..]);
    }
  }

  /** For every search from its start. */
  lemma SearchOutcome(caps: Caps, events: seq<Event>)
    ensures var answer := Run(caps, State([], 0, None, None), events).answer;
            && (answer.Some? <==> Ending(events).Some?)
            && (answer.Some? ==>
                  && EndedBy(answer.value, Ending(events).value)
                  && LongestWithin(caps, answer.value.entries, Sent(events))
                  && (answer.value.truncated.Some? <==>
                        |answer.value.entries| < |Sent(events)| || ReferredTo(events)))
  {
    hide LongestWithin, Run, EndedBy;
    NothingSentYet(caps);
    SearchAnswer(caps, State([], 0, None, None), [], false, events);
    assert [] + Sent(events) == Sent(events);
  }

  /** The reason named for a cut is the one there was: the count only when as many as it
      allows were kept, the bytes only when the next entry would have crossed them with room
      left for it otherwise, a referral only when one came. */
  ghost predicate NamesReason(caps: Caps, truncated: Option<Truncation>, kept: seq<Entry>, sent: seq<Entry>,
                              referred: bool) {
    && (truncated == Some(TooMany) ==> |kept| < |sent| && |kept| == caps.maxEntries)
    && (truncated == Some(TooBig) ==>
          |kept| < |sent| && |kept| < caps.maxEntries && Total(sent[..|kept| + 1]) > caps.maxResultBytes)
    && (truncated == Some(Referred) ==> referred)
  }

  lemma EntryNamesReason(caps: Caps, s: State, sent: seq<Entry>, referred: bool, entry: Entry)
    requires Collecting(caps, s, sent, referred) && NamesReason(caps, s.truncated, s.entries, sent, referred)
    ensures var t := Step(caps, s, SearchEntry(entry));
            NamesReason(caps, t.truncated, t.entries, sent + [entry], referred)
  {
    hide Total;
    TotalSnoc(s.entries, entry);
    var more := sent + [entry];
    if |s.entries| < |sent| {
      assert more[..|s.entries| + 1] == sent[..|s.entries| + 1];
    } else {
      assert s.entries == sent && more[..|sent| + 1] == more;
    }
  }

  lemma {:induction false} RunNamesReason(caps: Caps, s: State, sent: seq<Entry>, referred: bool, events: seq<Event>)
    requires Collecting(caps, s, sent, referred) && NamesReason(caps, s.truncated, s.entries, sent, referred)
    ensures var d := Run(caps, s, events);
            d.answer.Some? ==>
              NamesReason(caps, d.answer.value.truncated, d.answer.value.entries, sent + Sent(events),
                          referred || ReferredTo(events))
    decreases |events|
  {
    hide LongestWithin, Total;
    if events != [] {
      var e := events[0];
      var t := Step(caps, s, e);
      match e
      case SearchEntry(entry) =>
        EntryKeeps(caps, s, sent, referred, entry);
        EntryNamesReason(caps, s, sent, referred, entry);
        assert sent + Sent(events) == (sent + [entry]) + Sent(events[1..]);
        RunNamesReason(caps, t, sent + [entry], referred, events[1..]);
      case SearchReference =>
        assert sent + Sent(events) == sent + Sent(events[1..]);
        RunNamesReason(caps, t, sent, true, events[1..]);
      case _ =>
        assert sent + Sent(events) == sent;
        AnswerStays(caps, t, events[1..]);
    }
  }

  lemma ReasonNamed(caps: Caps, events: seq<Event>)
    ensures var answer := Run(caps, State([], 0, None, None), events).answer;
            answer.Some? ==>
              NamesReason(caps, answer.value.truncated, answer.value.entries, Sent(events), ReferredTo(events))
  {
    NothingSentYet(caps);
    hide LongestWithin, Run, NamesReason;
    NoReasonYet(caps);
    RunNamesReason(caps, State([], 0, None, None), [], false, events);
    assert [] + Sent(events) == Sent(events);
  }

  lemma NoReasonYet(caps: Caps)
    ensures NamesReason(caps, None, [], [], false)
  {
  }

  lemma NothingSentYet(caps: Caps)
    ensures Collecting(caps, State([], 0, None, None), [], false)
  {
  }
}
