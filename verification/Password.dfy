/**
 The argon2id encoding of a password, printed when a hash is made and parsed back
 when one is checked. argon2 itself is an uninterpreted function that answers as
 many bytes as it is asked for.
 */
module Password {
  import opened Wrappers
  import opened Text
  import opened Base64

  const VERSION := 19
  const UINT32 := 0x1_0000_0000
  const UINT8 := 0x100

  datatype Params = Params(memory: nat, time: nat, threads: nat)

  datatype Hash = Hash(params: Params, salt: string, key: string)

  // password, salt, parameters, key length
  type Argon2 = (string, string, Params, nat) -> string

  ghost predicate IsArgon2(idKey: Argon2) {
    forall password, salt, params, n ::
      IsBytes(idKey(password, salt, params, n)) && |idKey(password, salt, params, n)| == n
  }

  predicate Representable(p: Params) {
    p.memory < UINT32 && p.time < UINT32 && p.threads < UINT8
  }

  // A literal, a number, and the text after them.
  function Numbered(literal: string, n: nat, rest: string): string {
    literal + (Decimal(n) + rest)
  }

  function PrintParams(p: Params): string {
    Numbered("m=", p.memory, Numbered(",t=", p.time, Numbered(",p=", p.threads, "")))
  }

  function PrintVersion(version: nat): string {
    Numbered("v=", version, "")
  }

  // The pieces between the dollar signs.
  function Pieces(version: nat, h: Hash): seq<string>
    requires IsBytes(h.salt) && IsBytes(h.key)
  {
    ["", "argon2id", PrintVersion(version), PrintParams(h.params), Encode(STD, h.salt), Encode(STD, h.key)]
  }

  function Print(h: Hash): string
    requires IsBytes(h.salt) && IsBytes(h.key)
  {
    Join(Pieces(VERSION, h), '$')
  }

  // `HashPassword`, with the random salt and the creation parameters as arguments.
  function HashPassword(idKey: Argon2, password: string, salt: string, params: Params, keyLen: nat): string
    requires IsBytes(salt) && IsBytes(idKey(password, salt, params, keyLen))
  {
    Print(Hash(params, salt, idKey(password, salt, params, keyLen)))
  }

  // ---------------------------------------------------------------------------
  // `fmt.Sscanf` with literal text and %d: blanks are skipped before a number,
  // and whatever follows the last one is ignored.

  predicate IsBlank(c: char) {
    c == ' ' || c == '\t' || c == '\r' || c as int == 11 || c as int == 12
  }

  function SkipBlanks(s: string): string {
    if s != [] && IsBlank(s[0]) then SkipBlanks(s[1..]) else s
  }

  function SpanDigits(s: string): (r: (string, string))
    ensures AllDigits(r.0) && s == r.0 + r.1
  {
    if s == [] || !IsDigit(s[0]) then ([], s)
    else
      var (digits, rest) := SpanDigits(s[1..]);
      ([s[0]] + digits, rest)
  }

  function ScanLiteral(s: string, literal: string): Option<string> {
    if HasPrefix(s, literal) then Some(s[|literal|..]) else None
  }

  // %d into an unsigned integer below `limit`.
  function ScanUint(s: string, limit: nat): Option<(nat, string)> {
    var (digits, rest) := SpanDigits(SkipBlanks(s));
    if digits == [] || Value(digits) >= limit then None else Some((Value(digits), rest))
  }

  // %d into a signed 64-bit integer.
  function ScanInt(s: string): Option<int> {
    var t := SkipBlanks(s);
    var signed := t != [] && (t[0] == '+' || t[0] == '-');
    var (digits, _) := SpanDigits(if signed then t[1..] else t);
    ParseInt((if signed then [t[0]] else []) + digits)
  }

  // "v=%d"
  function ScanVersion(s: string): Option<int> {
    match ScanLiteral(s, "v=")
    case None => None
    case Some(rest) => ScanInt(rest)
  }

  // "<literal>%d" into an unsigned integer.
  function ScanField(s: string, literal: string, limit: nat): Option<(nat, string)> {
    match ScanLiteral(s, literal)
    case None => None
    case Some(rest) => ScanUint(rest, limit)
  }

  // "m=%d,t=%d,p=%d"
  function ScanParams(s: string): Option<Params> {
    match ScanField(s, "m=", UINT32)
    case None => None
    case Some((memory, s1)) =>
      match ScanField(s1, ",t=", UINT32)
      case None => None
      case Some((time, s2)) =>
        match ScanField(s2, ",p=", UINT8)
        case None => None
        case Some((threads, _)) => Some(Params(memory, time, threads))
  }

  function ParseHash(encoded: string): Option<Hash> {
    ParseParts(VERSION, Split(encoded, '$'))
  }

  function ParseParts(version: nat, parts: seq<string>): Option<Hash> {
    if |parts| != 6 || parts[0] != "" || parts[1] != "argon2id" then None
    else if ScanVersion(parts[2]) != Some(version) then None
    else
      match ScanParams(parts[3])
      case None => None
      case Some(params) =>
        match Decode(STD, parts[4])
        case None => None
        case Some(salt) =>
          match Decode(STD, parts[5])
          case None => None
          case Some(key) => if key == [] then None else Some(Hash(params, salt, key))
  }

  datatype BadHash = BadHash

  function VerifyPassword(idKey: Argon2, encoded: string, password: string): Result<bool, BadHash> {
    match ParseHash(encoded)
    case None => Err(BadHash)
    case Some(h) => Ok(idKey(password, h.salt, h.params, |h.key|) == h.key)
  }

  // ---------------------------------------------------------------------------

  lemma {:induction false} SpanOfDigits(digits: string, rest: string)
    requires AllDigits(digits) && (rest == [] || !IsDigit(rest[0]))
    ensures SpanDigits(digits + rest) == (digits, rest)
  {
    var s := digits + rest;
    if digits == [] {
      assert s == rest;
    } else {
      assert s[1..] == digits[1..] + rest;
      SpanOfDigits(digits[1..], rest);
      assert [s[0]] + digits[1..] == digits;
    }
  }

  lemma LiteralRoundTrip(literal: string, rest: string)
    ensures ScanLiteral(literal + rest, literal) == Some(rest)
  {
    var s := literal + rest;
    assert s[..|literal|] == literal && s[|literal|..] == rest;
  }

  // A field printed by %d is scanned back, with the text after it.
  lemma FieldRoundTrip(literal: string, n: nat, limit: nat, rest: string)
    requires n < limit && (rest == [] || !IsDigit(rest[0]))
    ensures ScanField(Numbered(literal, n, rest), literal, limit) == Some((n, rest))
  {
    var t := Decimal(n) + rest;
    LiteralRoundTrip(literal, t);
    assert t[0] == Decimal(n)[0] && IsDigit(t[0]);
    SpanOfDigits(Decimal(n), rest);
    ValueOfDecimal(n);
  }

  lemma ParamsRoundTrip(p: Params)
    requires Representable(p)
    ensures ScanParams(PrintParams(p)) == Some(p)
  {
    var s2 := Numbered(",p=", p.threads, "");
    var s1 := Numbered(",t=", p.time, s2);
    FieldRoundTrip(",p=", p.threads, UINT8, "");
    FieldRoundTrip(",t=", p.time, UINT32, s2);
    FieldRoundTrip("m=", p.memory, UINT32, s1);
  }

  lemma ScanIntOfDecimal(n: nat)
    requires n <= INT64_MAX
    ensures ScanInt(Decimal(n) + "") == Some(n)
  {
    var digits := Decimal(n);
    assert IsDigit(digits[0]) && digits + "" == digits;
    assert SkipBlanks(digits) == digits;
    SpanOfDigits(digits, "");
    assert SpanDigits(digits).0 == digits && [] + digits == digits;
    ParseOfPrint(n);
    assert ParseInt(digits) == Some(n);
  }

  lemma VersionRoundTrip(version: nat)
    requires version <= INT64_MAX
    ensures ScanVersion(PrintVersion(version)) == Some(version)
  {
    LiteralRoundTrip("v=", Decimal(version) + "");
    ScanIntOfDecimal(version);
  }

  lemma NumberedAvoids(literal: string, n: nat, rest: string, c: char)
    requires c !in literal && c !in rest && !IsDigit(c)
    ensures c !in Numbered(literal, n, rest)
  {
    var digits := Decimal(n);
    assert AllDigits(digits);
  }

  lemma AvoidSix(u: string, v: string, w: string, x: string, y: string, z: string, c: char)
    requires c !in u && c !in v && c !in w && c !in x && c !in y && c !in z
    ensures forall i :: 0 <= i < 6 ==> c !in [u, v, w, x, y, z][i]
  {
  }

  lemma PiecesAvoidDollar(version: nat, h: Hash)
    requires IsBytes(h.salt) && IsBytes(h.key)
    ensures forall i :: 0 <= i < |Pieces(version, h)| ==> '$' !in Pieces(version, h)[i]
  {
    NumberedAvoids("v=", version, "", '$');
    NumberedAvoids(",p=", h.params.threads, "", '$');
    NumberedAvoids(",t=", h.params.time, Numbered(",p=", h.params.threads, ""), '$');
    NumberedAvoids("m=", h.params.memory,
                   Numbered(",t=", h.params.time, Numbered(",p=", h.params.threads, "")), '$');
    EncodeAvoids(STD, h.salt, '$');
    EncodeAvoids(STD, h.key, '$');
    AvoidSix("", "argon2id", PrintVersion(version), PrintParams(h.params), Encode(STD, h.salt), Encode(STD, h.key), '$');
  }

  lemma JoinOfSix(a: string, b: string, c: string, d: string, e: string, f: string)
    ensures Join([a, b, c, d, e, f], '$') ==
            a + ['$'] + (b + ['$'] + (c + ['$'] + (d + ['$'] + (e + ['$'] + f))))
  {
    JoinCons(e, [f], '$');
    JoinCons(d, [e, f], '$');
    JoinCons(c, [d, e, f], '$');
    JoinCons(b, [c, d, e, f], '$');
    JoinCons(a, [b, c, d, e, f], '$');
    assert [e] + [f] == [e, f] && [d] + [e, f] == [d, e, f] && [c] + [d, e, f] == [c, d, e, f];
    assert [b] + [c, d, e, f] == [b, c, d, e, f] && [a] + [b, c, d, e, f] == [a, b, c, d, e, f];
  }

  // The printed form, spelled out.
  lemma PrintedForm(h: Hash)
    requires IsBytes(h.salt) && IsBytes(h.key)
    ensures Print(h) == "" + "$" + ("argon2id" + "$" + (PrintVersion(VERSION) + "$" + (PrintParams(h.params) + "$"
                        + (Encode(STD, h.salt) + "$" + Encode(STD, h.key)))))
  {
    JoinOfSix("", "argon2id", PrintVersion(VERSION), PrintParams(h.params), Encode(STD, h.salt), Encode(STD, h.key));
  }

  lemma PartsParsed(version: nat, h: Hash, v: string, p: string, salt: string, key: string)
    requires ScanVersion(v) == Some(version) && ScanParams(p) == Some(h.params)
    requires Decode(STD, salt) == Some(h.salt) && Decode(STD, key) == Some(h.key) && h.key != []
    ensures ParseParts(version, ["", "argon2id", v, p, salt, key]) == Some(h)
  {
  }

  lemma PiecesRoundTrip(version: nat, h: Hash)
    requires version <= INT64_MAX
    requires Representable(h.params) && IsBytes(h.salt) && IsBytes(h.key) && h.key != []
    ensures ParseParts(version, Pieces(version, h)) == Some(h)
  {
    VersionRoundTrip(version);
    ParamsRoundTrip(h.params);
    RoundTrip(STD, h.salt);
    RoundTrip(STD, h.key);
    PartsParsed(version, h, PrintVersion(version), PrintParams(h.params), Encode(STD, h.salt), Encode(STD, h.key));
  }

  // Parsing inverts printing for every representable parameter, any salt and any
  // non-empty key.
  lemma ParseInvertsPrint(h: Hash)
    requires Representable(h.params) && IsBytes(h.salt) && IsBytes(h.key) && h.key != []
    ensures ParseHash(Print(h)) == Some(h)
  {
    PiecesAvoidDollar(VERSION, h);
    SplitJoin(Pieces(VERSION, h), '$');
    PiecesRoundTrip(VERSION, h);
  }

  // Whatever parameters a hash was made with, checking a password against it asks
  // whether argon2 answers the same for both passwords under those parameters; so
  // the password it was made from is accepted, and creation parameters changed
  // since then play no part.
  lemma VerifyAgainstOwnParams(idKey: Argon2, password: string, other: string,
                               salt: string, params: Params, keyLen: nat)
    requires IsArgon2(idKey) && IsBytes(salt) && Representable(params) && keyLen > 0
    ensures var encoded := HashPassword(idKey, password, salt, params, keyLen);
            && VerifyPassword(idKey, encoded, other) ==
               Ok(idKey(other, salt, params, keyLen) == idKey(password, salt, params, keyLen))
            && VerifyPassword(idKey, encoded, password) == Ok(true)
  {
    ParseInvertsPrint(Hash(params, salt, idKey(password, salt, params, keyLen)));
  }

  // ---------------------------------------------------------------------------
  // What parses.

  // Tab, vertical tab, form feed, carriage return and space; a line feed ends the scan.
  lemma BlankCodes(c: char)
    ensures IsBlank(c) <==> c as int in {9, 11, 12, 13, 32}
  {
  }

  predicate AllBlank(s: string) {
    forall i :: 0 <= i < |s| ==> IsBlank(s[i])
  }

  predicate EndsDigits(rest: string) {
    rest == [] || !IsDigit(rest[0])
  }

  lemma {:induction false} BlanksSkipped(s: string) returns (blanks: string)
    ensures AllBlank(blanks) && s == blanks + SkipBlanks(s)
    ensures SkipBlanks(s) == [] || !IsBlank(SkipBlanks(s)[0])
  {
    if s != [] && IsBlank(s[0]) {
      var more := BlanksSkipped(s[1..]);
      blanks := [s[0]] + more;
    } else {
      blanks := [];
    }
  }

  lemma {:induction false} SkipsBlanks(blanks: string, t: string)
    requires AllBlank(blanks) && (t == [] || !IsBlank(t[0]))
    ensures SkipBlanks(blanks + t) == t
  {
    if blanks == [] {
      assert blanks + t == t;
    } else {
      assert (blanks + t)[1..] == blanks[1..] + t;
      SkipsBlanks(blanks[1..], t);
    }
  }

  lemma {:induction false} SpanEnds(s: string)
    ensures EndsDigits(SpanDigits(s).1)
  {
    if s != [] && IsDigit(s[0]) {
      SpanEnds(s[1..]);
    }
  }

  // The literal, perhaps blanks, the digits of n as far as they go, and the rest.
  predicate FieldWith(s: string, literal: string, n: nat, rest: string, blanks: string, digits: string) {
    && s == literal + (blanks + (digits + rest)) && AllBlank(blanks)
    && digits != [] && AllDigits(digits) && EndsDigits(rest) && Value(digits) == n
  }

  ghost predicate Field(s: string, literal: string, n: nat, rest: string) {
    exists blanks: string, digits: string :: FieldWith(s, literal, n, rest, blanks, digits)
  }

  lemma FieldScans(s: string, literal: string, limit: nat, n: nat, rest: string, blanks: string, digits: string)
    requires FieldWith(s, literal, n, rest, blanks, digits) && n < limit
    ensures ScanField(s, literal, limit) == Some((n, rest))
  {
    LiteralRoundTrip(literal, blanks + (digits + rest));
    assert (digits + rest)[0] == digits[0] && IsDigit(digits[0]);
    SkipsBlanks(blanks, digits + rest);
    SpanOfDigits(digits, rest);
  }

  lemma ScannedIsField(s: string, literal: string, limit: nat)
    requires ScanField(s, literal, limit).Some?
    ensures var (n, rest) := ScanField(s, literal, limit).value;
            n < limit && Field(s, literal, n, rest)
  {
    var t := ScanLiteral(s, literal).value;
    assert s == literal + t;
    var blanks := BlanksSkipped(t);
    var (digits, rest) := SpanDigits(SkipBlanks(t));
    SpanEnds(SkipBlanks(t));
    assert FieldWith(s, literal, Value(digits), rest, blanks, digits);
  }

  // A field is scanned from exactly these texts.
  lemma ScanFieldIff(s: string, literal: string, limit: nat, n: nat, rest: string)
    ensures ScanField(s, literal, limit) == Some((n, rest)) <==> n < limit && Field(s, literal, n, rest)
  {
    if ScanField(s, literal, limit) == Some((n, rest)) {
      ScannedIsField(s, literal, limit);
    }
    if n < limit && Field(s, literal, n, rest) {
      var blanks: string, digits: string :| FieldWith(s, literal, n, rest, blanks, digits);
      FieldScans(s, literal, limit, n, rest, blanks, digits);
    }
  }

  // Three such fields one after another, with whatever follows them.
  predicate ParamsWith(s: string, p: Params, s1: string, s2: string, s3: string) {
    ScanField(s, "m=", UINT32) == Some((p.memory, s1)) && ScanField(s1, ",t=", UINT32) == Some((p.time, s2))
    && ScanField(s2, ",p=", UINT8) == Some((p.threads, s3))
  }

  ghost predicate SaysParams(s: string, p: Params) {
    exists s1: string, s2: string, s3: string ::
      Field(s, "m=", p.memory, s1) && Field(s1, ",t=", p.time, s2) && Field(s2, ",p=", p.threads, s3)
  }

  lemma ScannedParams(s: string) returns (s1: string, s2: string, s3: string)
    requires ScanParams(s).Some?
    ensures ParamsWith(s, ScanParams(s).value, s1, s2, s3)
  {
    s1 := ScanField(s, "m=", UINT32).value.1;
    s2 := ScanField(s1, ",t=", UINT32).value.1;
    s3 := ScanField(s2, ",p=", UINT8).value.1;
  }

  lemma ParamsWithScans(s: string, p: Params, s1: string, s2: string, s3: string)
    requires ParamsWith(s, p, s1, s2, s3)
    ensures ScanParams(s) == Some(p)
  {
  }

  lemma ScanParamsIff(s: string, p: Params)
    ensures ScanParams(s) == Some(p) <==> Representable(p) && SaysParams(s, p)
  {
    if ScanParams(s) == Some(p) {
      var s1, s2, s3 := ScannedParams(s);
      ScanFieldIff(s, "m=", UINT32, p.memory, s1);
      ScanFieldIff(s1, ",t=", UINT32, p.time, s2);
      ScanFieldIff(s2, ",p=", UINT8, p.threads, s3);
    }
    if Representable(p) && SaysParams(s, p) {
      var s1: string, s2: string, s3: string :|
        Field(s, "m=", p.memory, s1) && Field(s1, ",t=", p.time, s2) && Field(s2, ",p=", p.threads, s3);
      ScanFieldIff(s, "m=", UINT32, p.memory, s1);
      ScanFieldIff(s1, ",t=", UINT32, p.time, s2);
      ScanFieldIff(s2, ",p=", UINT8, p.threads, s3);
      ParamsWithScans(s, p, s1, s2, s3);
    }
  }

  predicate FourPieces(encoded: string, v: string, p: string, salt: string, key: string) {
    && encoded == "" + ['$'] + ("argon2id" + ['$'] + (v + ['$'] + (p + ['$'] + (salt + ['$'] + key))))
    && '$' !in v && '$' !in p && '$' !in salt && '$' !in key
  }

  // The encoding of these parameters, salt and key: nothing, the name, version 19,
  // the parameters and two base64 pieces between dollar signs, and some key.
  ghost predicate Encodes(encoded: string, h: Hash) {
    exists v: string, p: string, salt: string, key: string ::
      && FourPieces(encoded, v, p, salt, key)
      && ScanVersion(v) == Some(19) && Representable(h.params) && SaysParams(p, h.params)
      && Decode(STD, salt) == Some(h.salt) && Decode(STD, key) == Some(h.key) && h.key != []
  }

  lemma PiecesIff(encoded: string, v: string, p: string, salt: string, key: string)
    ensures FourPieces(encoded, v, p, salt, key) <==> Split(encoded, '$') == ["", "argon2id", v, p, salt, key]
  {
    var parts := ["", "argon2id", v, p, salt, key];
    JoinOfSix("", "argon2id", v, p, salt, key);
    JoinSplit(encoded, '$');
    if FourPieces(encoded, v, p, salt, key) {
      AvoidSix("", "argon2id", v, p, salt, key, '$');
      SplitJoin(parts, '$');
    }
    if Split(encoded, '$') == parts {
      assert parts[2] == v && parts[3] == p && parts[4] == salt && parts[5] == key;
    }
  }

  lemma ParsedEncodes(encoded: string)
    requires ParseHash(encoded).Some?
    ensures Encodes(encoded, ParseHash(encoded).value)
  {
    var parts, h := Split(encoded, '$'), ParseHash(encoded).value;
    assert parts == ["", "argon2id", parts[2], parts[3], parts[4], parts[5]];
    PiecesIff(encoded, parts[2], parts[3], parts[4], parts[5]);
    ScanParamsIff(parts[3], h.params);
    assert FourPieces(encoded, parts[2], parts[3], parts[4], parts[5]);
  }

  // Every text whatever: it parses as a hash exactly when it encodes it.
  lemma ParseHashIff(encoded: string, h: Hash)
    ensures ParseHash(encoded) == Some(h) <==> Encodes(encoded, h)
  {
    if ParseHash(encoded) == Some(h) {
      ParsedEncodes(encoded);
    }
    if Encodes(encoded, h) {
      var v: string, p: string, salt: string, key: string :|
        && FourPieces(encoded, v, p, salt, key)
        && ScanVersion(v) == Some(19) && Representable(h.params) && SaysParams(p, h.params)
        && Decode(STD, salt) == Some(h.salt) && Decode(STD, key) == Some(h.key) && h.key != [];
      PiecesIff(encoded, v, p, salt, key);
      ScanParamsIff(p, h.params);
      PartsParsed(19, h, v, p, salt, key);
    }
  }

  // A text that encodes no hash is reported as such for every password, one without
  // a key among them; any other decides by argon2 and what it encodes.
  lemma VerifyIff(idKey: Argon2, encoded: string, password: string)
    ensures VerifyPassword(idKey, encoded, password) == Err(BadHash) <==> forall h :: !Encodes(encoded, h)
    ensures forall h :: Encodes(encoded, h) ==>
              VerifyPassword(idKey, encoded, password) == Ok(idKey(password, h.salt, h.params, |h.key|) == h.key)
  {
    forall h ensures ParseHash(encoded) == Some(h) <==> Encodes(encoded, h) {
      ParseHashIff(encoded, h);
    }
  }

  // The version piece: an optional sign and digits of a 64-bit integer, after blanks
  // and before anything that is no digit.
  predicate VersionWith(s: string, n: int, blanks: string, sign: string, digits: string, rest: string) {
    && s == "v=" + (blanks + (sign + (digits + rest))) && AllBlank(blanks) && sign in ["", "+", "-"]
    && digits != [] && AllDigits(digits) && EndsDigits(rest)
    && n == (if sign == "-" then -1 else 1) * Value(digits) && INT64_MIN <= n <= INT64_MAX
  }

  ghost predicate SaysVersion(s: string, n: int) {
    exists blanks: string, sign: string, digits: string, rest: string :: VersionWith(s, n, blanks, sign, digits, rest)
  }

  lemma ScannedVersion(s: string)
    requires ScanVersion(s).Some?
    ensures SaysVersion(s, ScanVersion(s).value)
  {
    var t := ScanLiteral(s, "v=").value;
    assert s == "v=" + t;
    var blanks := BlanksSkipped(t);
    var u := SkipBlanks(t);
    var signed := u != [] && (u[0] == '+' || u[0] == '-');
    var sign, body := if signed then [u[0]] else [], if signed then u[1..] else u;
    assert u == sign + body;
    var (digits, rest) := SpanDigits(body);
    SpanEnds(body);
    assert ParseInt(sign + digits) == ScanVersion(s);
    ParsedParts(sign, digits);
    assert VersionWith(s, ScanVersion(s).value, blanks, sign, digits, rest);
  }

  lemma ParsedParts(sign: string, digits: string)
    requires sign in ["", "+", "-"] && AllDigits(digits) && ParseInt(sign + digits).Some?
    ensures digits != []
    ensures var n := ParseInt(sign + digits).value;
            n == (if sign == "-" then -1 else 1) * Value(digits) && INT64_MIN <= n <= INT64_MAX
  {
    if sign == "" {
      assert sign + digits == digits;
    } else {
      assert (sign + digits)[1..] == digits;
    }
  }

  lemma VersionScans(s: string, n: int, blanks: string, sign: string, digits: string, rest: string)
    requires VersionWith(s, n, blanks, sign, digits, rest)
    ensures ScanVersion(s) == Some(n)
  {
    var u := sign + (digits + rest);
    LiteralRoundTrip("v=", blanks + u);
    assert IsDigit(digits[0]);
    SkipsBlanks(blanks, u);
    SpanOfDigits(digits, rest);
    if sign == "" {
      assert u == digits + rest && sign + digits == digits;
    } else {
      assert u[0] == sign[0] && u[1..] == digits + rest && [u[0]] == sign;
    }
    ParseSigned(sign, digits, n);
  }

  lemma ScanVersionIff(s: string, n: int)
    ensures ScanVersion(s) == Some(n) <==> SaysVersion(s, n)
  {
    if ScanVersion(s) == Some(n) {
      ScannedVersion(s);
    }
    if SaysVersion(s, n) {
      var blanks: string, sign: string, digits: string, rest: string :| VersionWith(s, n, blanks, sign, digits, rest);
      VersionScans(s, n, blanks, sign, digits, rest);
    }
  }

  lemma PrintedParams()
    ensures PrintParams(Params(65536, 3, 4)) == "m=65536,t=3,p=4" && PrintVersion(19) == "v=19"
  {
    DecimalVectors();
    assert Decimal(3) == "3" && Decimal(4) == "4";
    assert Numbered(",p=", 4, "") == ",p=4" && Numbered(",t=", 3, ",p=4") == ",t=3,p=4";
    assert Numbered("m=", 65536, ",t=3,p=4") == "m=65536,t=3,p=4";
  }

  // One encoding, piece by piece.
  lemma PrintedExample()
    ensures IsBytes("salt") && IsBytes("key")
    ensures Print(Hash(Params(65536, 3, 4), "salt", "key"))
         == "" + "$" + ("argon2id" + "$" + ("v=19" + "$" + ("m=65536,t=3,p=4" + "$" + ("c2FsdA" + "$" + "a2V5"))))
  {
    PrintedForm(Hash(Params(65536, 3, 4), "salt", "key"));
    PrintedParams();
    EncodeSalt();
  }

  lemma EncodeSalt()
    ensures Encode(STD, "salt") == "c2FsdA" && Encode(STD, "key") == "a2V5"
  {
    assert "salt"[3..] == "t" && "key"[3..] == [];
    assert Encode(STD, "t") == "dA";
    assert Encode(STD, "salt") == "c2Fs" + "dA" && Encode(STD, "key") == "a2V5" + [];
  }
}
