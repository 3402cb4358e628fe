/**
 Unpadded base64 (RFC 4648, sections 3.2, 4 and 5), parametrised by alphabet, as
 Go's RawStdEncoding and RawURLEncoding decode it: carriage returns and line
 feeds are skipped, and the unused low bits of a last partial group are ignored.
 */
module Base64 {
  import opened Wrappers
  import opened Text

  // The two characters the standard and URL alphabets differ in.
  datatype Alphabet = Alphabet(c62: char, c63: char)

  const STD := Alphabet('+', '/')
  const URL := Alphabet('-', '_')

  predicate IsAlphanumeric(c: char) {
    'A' <= c <= 'Z' || 'a' <= c <= 'z' || '0' <= c <= '9'
  }

  predicate IsNewline(c: char) {
    c == '\r' || c == '\n'
  }

  predicate Usable(a: Alphabet) {
    && !IsAlphanumeric(a.c62) && !IsAlphanumeric(a.c63) && a.c62 != a.c63
    && !IsNewline(a.c62) && !IsNewline(a.c63)
  }

  predicate InAlphabet(a: Alphabet, c: char) {
    IsAlphanumeric(c) || c == a.c62 || c == a.c63
  }

  type Sextet = n: int | 0 <= n < 64

  type Octet = n: int | 0 <= n < 256

  function Symbol(a: Alphabet, n: Sextet): char {
    if n < 26 then 'A' + n as char
    else if n < 52 then 'a' + (n - 26) as char
    else if n < 62 then '0' + (n - 52) as char
    else if n == 62 then a.c62
    else a.c63
  }

  function Index(a: Alphabet, c: char): Option<Sextet> {
    if 'A' <= c <= 'Z' then Some(c as int - 'A' as int)
    else if 'a' <= c <= 'z' then Some(c as int - 'a' as int + 26)
    else if '0' <= c <= '9' then Some(c as int - '0' as int + 52)
    else if c == a.c62 then Some(62)
    else if c == a.c63 then Some(63)
    else None
  }

  lemma IndexOfSymbol(a: Alphabet, n: Sextet)
    requires Usable(a)
    ensures Index(a, Symbol(a, n)) == Some(n) && InAlphabet(a, Symbol(a, n))
  {
  }

  function Bits(c: char): Octet
    requires c as int < 256
  {
    c as int
  }

  // Three octets as four sextets, most significant bits first.
  function Sextets(x: Octet, y: Octet, z: Octet): (Sextet, Sextet, Sextet, Sextet) {
    (x / 4, x % 4 * 16 + y / 16, y % 16 * 4 + z / 64, z % 64)
  }

  function Octets(s: Sextet, t: Sextet, u: Sextet, v: Sextet): (Octet, Octet, Octet) {
    (s * 4 + t / 16, t % 16 * 16 + u / 4, u % 4 * 64 + v)
  }

  // A byte cut in two at its k low bits, and put together again.
  lemma CutByte(x: Octet)
    ensures x / 4 * 4 + x % 4 == x && x / 16 * 16 + x % 16 == x && x / 64 * 64 + x % 64 == x
  {
  }

  lemma GroupRoundTrip(x: Octet, y: Octet, z: Octet)
    ensures var (s, t, u, v) := Sextets(x, y, z);
            Octets(s, t, u, v) == (x, y, z)
  {
    CutByte(x);
    CutByte(y);
    CutByte(z);
    assert (x % 4 * 16 + y / 16) / 16 == x % 4 && (x % 4 * 16 + y / 16) % 16 == y / 16;
    assert (y % 16 * 4 + z / 64) / 4 == y % 16 && (y % 16 * 4 + z / 64) % 4 == z / 64;
  }

  // A short last group is completed with zero bits and drops the symbols that
  // would carry nothing else.
  function Encode(a: Alphabet, bytes: string): string
    requires IsBytes(bytes)
    decreases |bytes|
  {
    if |bytes| == 0 then []
    else if |bytes| == 1 then
      var (s, t, _, _) := Sextets(Bits(bytes[0]), 0, 0);
      [Symbol(a, s), Symbol(a, t)]
    else if |bytes| == 2 then
      var (s, t, u, _) := Sextets(Bits(bytes[0]), Bits(bytes[1]), 0);
      [Symbol(a, s), Symbol(a, t), Symbol(a, u)]
    else
      var (s, t, u, v) := Sextets(Bits(bytes[0]), Bits(bytes[1]), Bits(bytes[2]));
      [Symbol(a, s), Symbol(a, t), Symbol(a, u), Symbol(a, v)] + Encode(a, bytes[3..])
  }

  function Indices(a: Alphabet, text: string): Option<seq<Sextet>> {
    if text == [] then Some([])
    else if IsNewline(text[0]) then Indices(a, text[1..])
    else
      match (Index(a, text[0]), Indices(a, text[1..]))
      case (Some(n), Some(rest)) => Some([n] + rest)
      case _ => None
  }

  function Unpack(ns: seq<Sextet>): Option<string>
    decreases |ns|
  {
    if |ns| == 0 then Some([])
    else if |ns| == 1 then None
    else if |ns| == 2 then
      var (x, _, _) := Octets(ns[0], ns[1], 0, 0);
      Some([x as char])
    else if |ns| == 3 then
      var (x, y, _) := Octets(ns[0], ns[1], ns[2], 0);
      Some([x as char, y as char])
    else
      var (x, y, z) := Octets(ns[0], ns[1], ns[2], ns[3]);
      match Unpack(ns[4..])
      case None => None
      case Some(rest) => Some([x as char, y as char, z as char] + rest)
  }

  function Decode(a: Alphabet, text: string): Option<string> {
    match Indices(a, text)
    case None => None
    case Some(ns) => Unpack(ns)
  }

  lemma IndicesOfSymbols(a: Alphabet, ns: seq<Sextet>, text: string, rest: string)
    requires Usable(a) && |text| == |ns|
    requires forall i :: 0 <= i < |ns| ==> text[i] == Symbol(a, ns[i])
    ensures Indices(a, text + rest) ==
            match Indices(a, rest) case None => None case Some(more) => Some(ns + more)
    decreases |ns|
  {
    if ns == [] {
      assert text + rest == rest;
      if Indices(a, rest).Some? { assert ns + Indices(a, rest).value == Indices(a, rest).value; }
    } else {
      IndexOfSymbol(a, ns[0]);
      assert (text + rest)[1..] == text[1..] + rest;
      IndicesOfSymbols(a, ns[1..], text[1..], rest);
      if Indices(a, rest).Some? {
        var more := Indices(a, rest).value;
        assert [ns[0]] + (ns[1..] + more) == ns + more;
      }
    }
  }

  // One full group in front of text that already decodes.
  lemma GroupThenRest(a: Alphabet, group: string, rest: string, tail: string)
    requires Usable(a) && |group| == 3 && IsBytes(group) && Decode(a, rest) == Some(tail)
    ensures var (s, t, u, v) := Sextets(Bits(group[0]), Bits(group[1]), Bits(group[2]));
            Decode(a, [Symbol(a, s), Symbol(a, t), Symbol(a, u), Symbol(a, v)] + rest) == Some(group + tail)
  {
    var (s, t, u, v) := Sextets(Bits(group[0]), Bits(group[1]), Bits(group[2]));
    GroupRoundTrip(Bits(group[0]), Bits(group[1]), Bits(group[2]));
    IndicesOfSymbols(a, [s, t, u, v], [Symbol(a, s), Symbol(a, t), Symbol(a, u), Symbol(a, v)], rest);
    var more := Indices(a, rest).value;
    assert ([s, t, u, v] + more)[4..] == more;
    assert group == [group[0], group[1], group[2]];
  }

  // A last group of one or two octets.
  lemma LastGroup(a: Alphabet, bytes: string)
    requires Usable(a) && 1 <= |bytes| <= 2 && IsBytes(bytes)
    ensures Decode(a, Encode(a, bytes)) == Some(bytes)
  {
    var code := Encode(a, bytes);
    assert code + [] == code;
    if |bytes| == 1 {
      var (s, t, u, v) := Sextets(Bits(bytes[0]), 0, 0);
      GroupRoundTrip(Bits(bytes[0]), 0, 0);
      IndicesOfSymbols(a, [s, t], code, []);
      assert [s, t] + [] == [s, t];
      assert bytes == [bytes[0]];
    } else {
      var (s, t, u, v) := Sextets(Bits(bytes[0]), Bits(bytes[1]), 0);
      GroupRoundTrip(Bits(bytes[0]), Bits(bytes[1]), 0);
      IndicesOfSymbols(a, [s, t, u], code, []);
      assert [s, t, u] + [] == [s, t, u] && v == 0;
      assert bytes == [bytes[0], bytes[1]];
    }
  }

  lemma {:induction false} RoundTrip(a: Alphabet, bytes: string)
    requires Usable(a) && IsBytes(bytes)
    ensures Decode(a, Encode(a, bytes)) == Some(bytes)
    decreases |bytes|
  {
    if |bytes| == 0 {
    } else if |bytes| < 3 {
      LastGroup(a, bytes);
    } else {
      RoundTrip(a, bytes[3..]);
      GroupThenRest(a, bytes[..3], Encode(a, bytes[3..]), bytes[3..]);
      assert bytes == bytes[..3] + bytes[3..];
    }
  }

  lemma EncodeOfGroup(a: Alphabet, bytes: string)
    requires Usable(a) && IsBytes(bytes) && |bytes| >= 3
    ensures var code, rest := Encode(a, bytes), Encode(a, bytes[3..]);
            && |code| == 4 + |rest| && code[4..] == rest
            && forall i :: 0 <= i < 4 ==> InAlphabet(a, code[i])
  {
    var (s, t, u, v) := Sextets(Bits(bytes[0]), Bits(bytes[1]), Bits(bytes[2]));
    IndexOfSymbol(a, s);
    IndexOfSymbol(a, t);
    IndexOfSymbol(a, u);
    IndexOfSymbol(a, v);
  }

  // Encoded text holds nothing but the alphabet, so no delimiter outside it.
  lemma {:induction false} EncodeInAlphabet(a: Alphabet, bytes: string, i: nat)
    requires Usable(a) && IsBytes(bytes) && i < |Encode(a, bytes)|
    ensures InAlphabet(a, Encode(a, bytes)[i])
    decreases |bytes|
  {
    if |bytes| >= 3 {
      EncodeOfGroup(a, bytes);
      if i >= 4 {
        EncodeInAlphabet(a, bytes[3..], i - 4);
        assert Encode(a, bytes)[i] == Encode(a, bytes)[4..][i - 4];
      }
    }
  }

  lemma EncodeAvoids(a: Alphabet, bytes: string, c: char)
    requires Usable(a) && IsBytes(bytes) && !InAlphabet(a, c)
    ensures c !in Encode(a, bytes)
  {
    forall i | 0 <= i < |Encode(a, bytes)| ensures Encode(a, bytes)[i] != c {
      EncodeInAlphabet(a, bytes, i);
    }
  }

  // ---------------------------------------------------------------------------
  // What decoding accepts, and what it then means.

  // The text without its carriage returns and line feeds.
  function Strip(text: string): string {
    if text == [] then [] else (if IsNewline(text[0]) then [] else [text[0]]) + Strip(text[1..])
  }

  lemma SymbolOfIndex(a: Alphabet, c: char)
    requires Usable(a)
    ensures Index(a, c).Some? <==> InAlphabet(a, c)
    ensures Index(a, c).Some? ==> Symbol(a, Index(a, c).value) == c
  {
  }

  lemma NewlineCodes(c: char)
    ensures IsNewline(c) <==> c as int == 10 || c as int == 13
  {
  }

  predicate Decodable(a: Alphabet, text: string) {
    forall i :: 0 <= i < |text| ==> InAlphabet(a, text[i]) || IsNewline(text[i])
  }

  predicate Spells(a: Alphabet, ns: seq<Sextet>, symbols: string) {
    |ns| == |symbols| && forall i :: 0 <= i < |ns| ==> Symbol(a, ns[i]) == symbols[i]
  }

  lemma {:induction false} IndicesIff(a: Alphabet, text: string)
    requires Usable(a)
    ensures Indices(a, text).Some? <==> Decodable(a, text)
    ensures Indices(a, text).Some? ==> Spells(a, Indices(a, text).value, Strip(text))
  {
    if text != [] {
      IndicesIff(a, text[1..]);
      SymbolOfIndex(a, text[0]);
      assert text == [text[0]] + text[1..];
    }
  }

  lemma UnpackGroup(ns: seq<Sextet>)
    ensures if |ns| >= 4 then Unpack(ns).Some? == Unpack(ns[4..]).Some? else Unpack(ns).Some? == (|ns| != 1)
  {
  }

  lemma DropFour(n: nat)
    requires n >= 4
    ensures n % 4 == (n - 4) % 4
  {
  }

  lemma {:induction false} UnpackIff(ns: seq<Sextet>)
    ensures Unpack(ns).Some? <==> |ns| % 4 != 1
    decreases |ns|
  {
    UnpackGroup(ns);
    if |ns| >= 4 {
      UnpackIff(ns[4..]);
      DropFour(|ns|);
    }
  }

  // The text encoding would write, but for the unused low bits of a partial group.
  predicate Agrees(code: string, symbols: string) {
    |code| == |symbols| && forall i :: 0 <= i < |code| && (i < |code| - 1 || |code| % 4 == 0) ==> code[i] == symbols[i]
  }

  lemma OctetsCut(s: Sextet, t: Sextet, u: Sextet, v: Sextet)
    ensures var (x, y, z) := Octets(s, t, u, v);
            Sextets(x, y, z) == (s, t, u, v)
  {
    assert (s * 4 + t / 16) / 4 == s && (s * 4 + t / 16) % 4 == t / 16;
    assert (t % 16 * 16 + u / 4) / 16 == t % 16 && (t % 16 * 16 + u / 4) % 16 == u / 4;
    assert (u % 4 * 64 + v) / 64 == u % 4 && (u % 4 * 64 + v) % 64 == v;
  }

  lemma LastUnpacked(a: Alphabet, ns: seq<Sextet>, symbols: string)
    requires 2 <= |ns| <= 3 && Spells(a, ns, symbols)
    ensures var bytes := Unpack(ns).value;
            IsBytes(bytes) && Agrees(Encode(a, bytes), symbols)
  {
    if |ns| == 2 {
      OctetsCut(ns[0], ns[1], 0, 0);
    } else {
      OctetsCut(ns[0], ns[1], ns[2], 0);
    }
  }

  lemma GroupUnpacked(a: Alphabet, group: seq<Sextet>, rest: string)
    requires |group| == 4 && IsBytes(rest)
    ensures var (x, y, z) := Octets(group[0], group[1], group[2], group[3]);
            var bytes := [x as char, y as char, z as char] + rest;
            IsBytes(bytes) && Encode(a, bytes) ==
              [Symbol(a, group[0]), Symbol(a, group[1]), Symbol(a, group[2]), Symbol(a, group[3])] + Encode(a, rest)
  {
    var (x, y, z) := Octets(group[0], group[1], group[2], group[3]);
    OctetsCut(group[0], group[1], group[2], group[3]);
    assert ([x as char, y as char, z as char] + rest)[3..] == rest;
  }

  lemma {:induction false} UnpackedAgrees(a: Alphabet, ns: seq<Sextet>, symbols: string)
    requires Unpack(ns).Some? && Spells(a, ns, symbols)
    ensures IsBytes(Unpack(ns).value) && Agrees(Encode(a, Unpack(ns).value), symbols)
    decreases |ns|
  {
    if |ns| >= 4 {
      var rest := Unpack(ns[4..]).value;
      UnpackedAgrees(a, ns[4..], symbols[4..]);
      GroupUnpacked(a, ns[..4], rest);
      AgreesCons([Symbol(a, ns[0]), Symbol(a, ns[1]), Symbol(a, ns[2]), Symbol(a, ns[3])], Encode(a, rest), symbols);
    } else if |ns| >= 2 {
      LastUnpacked(a, ns, symbols);
    }
  }

  lemma AgreesCons(group: string, code: string, symbols: string)
    requires |group| == 4 <= |symbols| && group == symbols[..4] && Agrees(code, symbols[4..])
    ensures Agrees(group + code, symbols)
  {
    forall i | 0 <= i < 4 + |code| && (i < 3 + |code| || |code| % 4 == 0) ensures (group + code)[i] == symbols[i] {
      if i < 4 { assert symbols[i] == symbols[..4][i]; } else { assert symbols[i] == symbols[4..][i - 4]; }
    }
  }

  // Decoding accepts exactly the texts over the alphabet, line breaks aside, that
  // leave no single symbol over; and what it answers is what encodes to that text,
  // up to the unused bits of its last symbol.
  lemma DecodeIff(a: Alphabet, text: string)
    requires Usable(a)
    ensures Decode(a, text).Some? <==> Decodable(a, text) && |Strip(text)| % 4 != 1
    ensures Decode(a, text).Some? ==>
              var bytes := Decode(a, text).value;
              IsBytes(bytes) && Agrees(Encode(a, bytes), Strip(text))
  {
    IndicesIff(a, text);
    if Decodable(a, text) {
      var ns := Indices(a, text).value;
      UnpackIff(ns);
      if Unpack(ns).Some? {
        UnpackedAgrees(a, ns, Strip(text));
      }
    }
  }

  // Section 10 of RFC 4648, without the padding.
  lemma TestVectors()
    ensures Encode(STD, "f") == "Zg"
    ensures Encode(STD, "fo") == "Zm8"
    ensures Encode(STD, "foobar") == "Zm9vYmFy"
  {
    assert "foobar"[3..] == "bar";
    assert "bar"[3..] == [];
    assert Encode(STD, "bar") == "YmFy" + [];
    assert Encode(STD, "foobar") == "Zm9v" + "YmFy";
  }

  // The two alphabets differ exactly in the symbols of 62 and 63.
  lemma AlphabetVectors()
    ensures Encode(STD, "~?~") == "fj9+" && Encode(URL, "~?~") == "fj9-"
    ensures Encode(STD, "???") == "Pz8/" && Encode(URL, "???") == "Pz8_"
  {
    assert "~?~"[3..] == [] && "???"[3..] == [];
    assert Encode(STD, "~?~") == "fj9+" + [] && Encode(URL, "~?~") == "fj9-" + [];
    assert Encode(STD, "???") == "Pz8/" + [] && Encode(URL, "???") == "Pz8_" + [];
  }
}
