/**
 The URL of a list screen, and the filter read back out of it. Query strings are
 percent-encoded (RFC 3986, section 2.1) with `+` for a space.
 */
module ListUrl {
  import opened Wrappers
  import opened Text

  // ---------------------------------------------------------------------------
  // `url.QueryEscape` and `url.QueryUnescape`.

  predicate Unreserved(c: char) {
    'a' <= c <= 'z' || 'A' <= c <= 'Z' || '0' <= c <= '9' || c == '-' || c == '_' || c == '.' || c == '~'
  }

  function Hex(n: nat): char
    requires n < 16
  {
    if n < 10 then n as char + '0' else (n - 10) as char + 'A'
  }

  function Unhex(c: char): Option<nat> {
    if '0' <= c <= '9' then Some(c as int - '0' as int)
    else if 'a' <= c <= 'f' then Some(c as int - 'a' as int + 10)
    else if 'A' <= c <= 'F' then Some(c as int - 'A' as int + 10)
    else None
  }

  function EscapeChar(c: char): string
    requires c as int < 256
  {
    if c == ' ' then "+"
    else if Unreserved(c) then [c]
    else ['%', Hex(c as int / 16), Hex(c as int % 16)]
  }

  function Escape(s: string): string
    requires IsBytes(s)
  {
    if s == [] then [] else EscapeChar(s[0]) + Escape(s[1..])
  }

  function Prepend(c: char, rest: Option<string>): Option<string> {
    match rest
    case None => None
    case Some(t) => Some([c] + t)
  }

  function Unescape(s: string): Option<string>
    decreases |s|
  {
    if s == [] then Some([])
    else if s[0] == '+' then Prepend(' ', Unescape(s[1..]))
    else if s[0] != '%' then Prepend(s[0], Unescape(s[1..]))
    else if |s| < 3 then None
    else
      match (Unhex(s[1]), Unhex(s[2]))
      case (Some(hi), Some(lo)) => Prepend((16 * hi + lo) as char, Unescape(s[3..]))
      case _ => None
  }

  lemma UnescapeStep(c: char, rest: string)
    requires c as int < 256
    ensures Unescape(EscapeChar(c) + rest) == Prepend(c, Unescape(rest))
  {
    var s := EscapeChar(c) + rest;
    if c == ' ' || Unreserved(c) {
      assert s[1..] == rest;
    } else {
      assert s[3..] == rest;
      assert Unhex(s[1]) == Some(c as int / 16) && Unhex(s[2]) == Some(c as int % 16);
    }
  }

  lemma {:induction false} UnescapeOfEscape(s: string)
    requires IsBytes(s)
    ensures Unescape(Escape(s)) == Some(s)
  {
    if s != [] {
      UnescapeOfEscape(s[1..]);
      UnescapeStep(s[0], Escape(s[1..]));
      assert [s[0]] + s[1..] == s;
    }
  }

  predicate Escaped(c: char) {
    Unreserved(c) || c == '+' || c == '%'
  }

  lemma {:induction false} EscapeCharacters(s: string, i: nat)
    requires IsBytes(s) && i < |Escape(s)|
    ensures Escaped(Escape(s)[i])
  {
    var first := EscapeChar(s[0]);
    if i >= |first| {
      EscapeCharacters(s[1..], i - |first|);
    }
  }

  // ---------------------------------------------------------------------------
  // `url.Values`: malformed pairs are skipped, the first value of a name counts.

  function Pair(part: string): Option<(string, string)> {
    if part == [] || ';' in part then None
    else
      var (key, value) := match Cut(part, '=') case None => (part, "") case Some(kv) => kv;
      match (Unescape(key), Unescape(value))
      case (Some(k), Some(v)) => Some((k, v))
      case _ => None
  }

  function FirstValue(parts: seq<string>, name: string): string {
    if parts == [] then ""
    else
      match Pair(parts[0])
      case Some((k, v)) => if k == name then v else FirstValue(parts[1..], name)
      case None => FirstValue(parts[1..], name)
  }

  function Query(url: string): string {
    match Cut(url, '?')
    case None => ""
    case Some((_, query)) => query
  }

  // `r.URL.Query().Get(name)`
  function Get(url: string, name: string): string {
    FirstValue(Split(Query(url), '&'), name)
  }

  // ---------------------------------------------------------------------------
  // The list screens.

  datatype Listing = Listing(text: string, page: int)

  function ListingFrom(url: string): Listing {
    var page := match ParseInt(Get(url, "page")) case Some(n) => n case None => 1;
    Listing(Get(url, "q"), if page < 1 then 1 else page)
  }

  function Parameter(name: string, written: string): string {
    name + "=" + written
  }

  // The parameters a list URL spells out; a first page and an empty query are omitted.
  function Parameters(query: string, page: int): seq<string>
    requires IsBytes(query)
  {
    (if query != "" then [Parameter("q", Escape(query))] else [])
    + (if page > 1 then [Parameter("page", PrintInt(page))] else [])
  }

  function ListUrl(base: string, query: string, page: int): string
    requires IsBytes(query)
  {
    var parameters := Parameters(query, page);
    if parameters == [] then base else base + "?" + Join(parameters, '&')
  }

  // The URL written out, case by case.
  lemma ListUrlCases(base: string, query: string, page: int)
    requires IsBytes(query)
    ensures var url := ListUrl(base, query, page);
            var q, n := Parameter("q", Escape(query)), Parameter("page", PrintInt(page));
            && (query == "" && page <= 1 ==> url == base)
            && (query != "" && page <= 1 ==> url == base + ("?" + q))
            && (query == "" && page > 1 ==> url == base + ("?" + n))
            && (query != "" && page > 1 ==> url == base + ("?" + q) + ("&" + n))
  {
    var q, n := Parameter("q", Escape(query)), Parameter("page", PrintInt(page));
    JoinCons(q, [n], '&');
    assert [q] + [n] == [q, n] && Join([n], '&') == n && Join([q], '&') == q;
    ConcatAssociates(base, q, n);
  }

  lemma ConcatAssociates(base: string, q: string, n: string)
    ensures base + "?" + (q + ['&'] + n) == base + ("?" + q) + ("&" + n)
    ensures base + "?" + q == base + ("?" + q) && base + "?" + n == base + ("?" + n)
  {
  }

  method BuildListUrl(base: string, query: string, page: int) returns (url: string)
    requires IsBytes(query)
    ensures url == ListUrl(base, query, page)
  {
    ListUrlCases(base, query, page);
    url := base;
    var sep := "?";
    if query != "" {
      url := url + (sep + Parameter("q", Escape(query)));
      sep := "&";
    }
    if page > 1 {
      url := url + (sep + Parameter("page", PrintInt(page)));
    }
  }

  lemma {:induction false} UnescapePlain(s: string)
    requires forall i :: 0 <= i < |s| ==> s[i] != '+' && s[i] != '%'
    ensures Unescape(s) == Some(s)
  {
    if s != [] {
      UnescapePlain(s[1..]);
      assert [s[0]] + s[1..] == s;
    }
  }

  // One parameter, as it is written and as it is read.
  lemma PairRoundTrip(name: string, value: string, written: string)
    requires name != "" && Unescape(written) == Some(value)
    requires forall i :: 0 <= i < |name| ==> Unreserved(name[i])
    requires ';' !in written
    ensures Pair(Parameter(name, written)) == Some((name, value))
  {
    UnescapePlain(name);
    CutFirst(name, written, '=');
    assert Parameter(name, written) == name + ['='] + written;
  }

  lemma EscapeAvoids(s: string, c: char)
    requires IsBytes(s) && !Escaped(c)
    ensures c !in Escape(s)
  {
    forall i | 0 <= i < |Escape(s)| ensures Escape(s)[i] != c {
      EscapeCharacters(s, i);
    }
  }

  // What the two parameters of a list URL read back as.
  lemma QueryPair(query: string)
    requires IsBytes(query)
    ensures Pair(Parameter("q", Escape(query))) == Some(("q", query))
    ensures '&' !in Parameter("q", Escape(query))
  {
    EscapeAvoids(query, ';');
    EscapeAvoids(query, '&');
    UnescapeOfEscape(query);
    PairRoundTrip("q", query, Escape(query));
  }

  lemma PagePair(page: int)
    ensures Pair(Parameter("page", PrintInt(page))) == Some(("page", PrintInt(page)))
    ensures '&' !in Parameter("page", PrintInt(page))
  {
    var written := PrintInt(page);
    PrintIntCharacters(page);
    UnescapePlain(written);
    PairRoundTrip("page", written, written);
  }

  lemma FirstOfParameters(query: string, page: int)
    requires IsBytes(query) && 1 <= page
    ensures FirstValue(Parameters(query, page), "q") == query
    ensures FirstValue(Parameters(query, page), "page") == if page > 1 then PrintInt(page) else ""
  {
    QueryPair(query);
    PagePair(page);
    var parameters := Parameters(query, page);
    assert |"q"| != |"page"|;
    if parameters != [] {
      var rest := parameters[1..];
      assert rest == [] || (rest == [Parameter("page", PrintInt(page))] && rest[1..] == []);
    }
  }

  // Reading a list URL gives back the query and the page it was built from.
  lemma ListUrlRoundTrip(base: string, query: string, page: int)
    requires '?' !in base && IsBytes(query) && 1 <= page <= INT64_MAX
    ensures ListingFrom(ListUrl(base, query, page)) == Listing(query, page)
  {
    var parameters, url := Parameters(query, page), ListUrl(base, query, page);
    QueryPair(query);
    PagePair(page);
    ParseOfPrint(page);
    if parameters == [] {
      CutNone(base, '?');
      assert Query(url) == "" && [""][1..] == [];
      assert Get(url, "q") == "" && Get(url, "page") == "";
    } else {
      CutFirst(base, Join(parameters, '&'), '?');
      assert url == base + ['?'] + Join(parameters, '&');
      SplitJoin(parameters, '&');
    }
    FirstOfParameters(query, page);
    assert Get(url, "q") == query && Get(url, "page") == if page > 1 then PrintInt(page) else "";
    assert ParseInt("") == None;
  }

  // ---------------------------------------------------------------------------
  // Any URL.

  predicate IsHex(c: char) {
    '0' <= c <= '9' || 'a' <= c <= 'f' || 'A' <= c <= 'F'
  }

  // Every percent sign has two hexadecimal digits after it.
  predicate WellEscaped(s: string) {
    forall i :: 0 <= i < |s| && s[i] == '%' ==> i + 2 < |s| && IsHex(s[i + 1]) && IsHex(s[i + 2])
  }

  lemma WellEscapedTail(s: string, k: nat)
    requires k <= |s| && forall i :: 0 < i < k ==> s[i] != '%'
    requires k > 0 && (s[0] == '%' ==> k + 0 == 3 && IsHex(s[1]) && IsHex(s[2]))
    ensures WellEscaped(s) <==> WellEscaped(s[k..])
  {
    var tail := s[k..];
    assert forall i :: 0 <= i < |tail| ==> tail[i] == s[k + i];
    if WellEscaped(tail) {
      forall i | 0 <= i < |s| && s[i] == '%' ensures i + 2 < |s| && IsHex(s[i + 1]) && IsHex(s[i + 2]) {
        if i >= k {
          assert tail[i - k] == '%';
          assert tail[i - k + 1] == s[i + 1] && tail[i - k + 2] == s[i + 2];
        }
      }
    }
    if WellEscaped(s) {
      forall i | 0 <= i < |tail| && tail[i] == '%' ensures i + 2 < |tail| && IsHex(tail[i + 1]) && IsHex(tail[i + 2]) {
        assert s[k + i] == '%';
      }
    }
  }

  // The characters of section 2.3 of RFC 3986, which stand for themselves.
  lemma UnreservedCodes(c: char)
    ensures Unreserved(c) <==>
              || 48 <= c as int <= 57 || 65 <= c as int <= 90 || 97 <= c as int <= 122
              || c as int in {45, 46, 95, 126}
  {
  }

  // Decoding fails exactly on a broken percent sign.
  lemma {:induction false} UnescapeIff(s: string)
    ensures Unescape(s).Some? <==> WellEscaped(s)
    decreases |s|
  {
    if s == [] {
    } else if s[0] != '%' {
      UnescapeIff(s[1..]);
      WellEscapedTail(s, 1);
    } else if |s| >= 3 && IsHex(s[1]) && IsHex(s[2]) {
      UnescapeIff(s[3..]);
      WellEscapedTail(s, 3);
    }
  }

  // A part of a query names k with value v exactly when it holds no semicolon and
  // its two sides of the first equals sign, or itself and nothing, decode to them.
  ghost predicate Names(part: string, k: string, v: string) {
    && part != "" && ';' !in part
    && ( || ('=' !in part && Unescape(part) == Some(k) && v == "")
         || exists key: string, value: string :: Sides(part, key, value) && Unescape(key) == Some(k) && Unescape(value) == Some(v))
  }

  predicate Sides(part: string, key: string, value: string) {
    '=' !in key && part == key + "=" + value
  }

  lemma PairIff(part: string, k: string, v: string)
    ensures Pair(part) == Some((k, v)) <==> Names(part, k, v)
  {
    CutIsFirst(part, '=');
    if part != [] && ';' !in part {
      if Cut(part, '=').Some? {
        var (key, value) := Cut(part, '=').value;
        assert Sides(part, key, value);
        if Names(part, k, v) {
          var key': string, value': string :| Sides(part, key', value') && Unescape(key') == Some(k) && Unescape(value') == Some(v);
          CutFirst(key', value', '=');
        }
      } else {
        CutNone(part, '=');
        assert Unescape("") == Some("");
      }
    }
  }

  // The value of a name is that of the first part that gives it one.
  lemma {:induction false} FirstValueIsFirst(parts: seq<string>, name: string, i: nat)
    requires i <= |parts|
    requires forall j :: 0 <= j < i ==> Pair(parts[j]).None? || Pair(parts[j]).value.0 != name
    ensures i == |parts| ==> FirstValue(parts, name) == ""
    ensures i < |parts| && Pair(parts[i]).Some? && Pair(parts[i]).value.0 == name ==>
              FirstValue(parts, name) == Pair(parts[i]).value.1
  {
    if i > 0 {
      assert forall j :: 0 <= j < i - 1 ==> parts[1..][j] == parts[j + 1];
      FirstValueIsFirst(parts[1..], name, i - 1);
    }
  }

  // The page read from any URL is at least 1, and above 1 only as the number the
  // query spells.
  lemma PageOfAnyUrl(url: string, n: int)
    requires n > 1
    ensures ListingFrom(url).page >= 1
    ensures ListingFrom(url).page == n <==> n <= INT64_MAX && Numeral(Get(url, "page"), n)
  {
    ParseIntIff(Get(url, "page"), n);
  }

  // One encoding each way, character by character.
  lemma EscapeExample()
    ensures IsBytes("a &~") && Escape("a &~") == "a+%26~"
  {
    assert "a &~"[1..] == " &~" && " &~"[1..] == "&~" && "&~"[1..] == "~" && "~"[1..] == "";
    assert Escape("~") == "~" + "" && Escape("&~") == "%26" + "~" && Escape(" &~") == "+" + "%26~";
  }

  lemma UnescapeExample()
    ensures Unescape("%aF+%1") == None && Unescape("%aF+") == Some([0xaf as char, ' '])
  {
    assert "%aF+%1"[3..] == "+%1" && "+%1"[1..] == "%1" && Unescape("%1") == None;
    assert "%aF+"[3..] == "+" && "+"[1..] == "" && [' '] + "" == [' '];
    assert Unescape("") == Some("");
    assert Unescape("+") == Prepend(' ', Some(""));
    assert [0xaf as char] + [' '] == [0xaf as char, ' '];
  }
}
