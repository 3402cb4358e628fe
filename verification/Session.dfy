/**
 The session cookie: `payload.signature`, both base64url, where the payload is
 "1|issued|expires" in whole seconds. The MAC is an uninterpreted function of the
 payload that answers bytes; a key fixes which one. Instants are nanoseconds.
 */
module Session {
  import opened Wrappers
  import opened Text
  import opened Base64

  const SECOND := 1_000_000_000

  type Mac = string -> string

  datatype Session = Session(issuedAt: int, expiresAt: int)

  ghost predicate IsMac(mac: Mac) {
    forall payload :: IsBytes(mac(payload))
  }

  // `time.Time.Unix`: whole seconds, rounded towards the past.
  function Unix(t: int): int {
    t / SECOND
  }

  predicate FitsInt64(t: int) {
    INT64_MIN <= Unix(t) <= INT64_MAX
  }

  function Truncated(s: Session): Session {
    Session(Unix(s.issuedAt) * SECOND, Unix(s.expiresAt) * SECOND)
  }

  function Payload(s: Session): string {
    "1|" + PrintInt(Unix(s.issuedAt)) + "|" + PrintInt(Unix(s.expiresAt))
  }

  lemma PayloadParts(s: Session)
    ensures IsBytes(Payload(s))
    ensures Split(Payload(s), '|') == ["1", PrintInt(Unix(s.issuedAt)), PrintInt(Unix(s.expiresAt))]
  {
    var issued, expires := PrintInt(Unix(s.issuedAt)), PrintInt(Unix(s.expiresAt));
    PrintIntCharacters(Unix(s.issuedAt));
    PrintIntCharacters(Unix(s.expiresAt));
    var parts := ["1", issued, expires];
    assert parts[1..] == [issued, expires] && parts[1..][1..] == [expires];
    assert Join([expires], '|') == expires;
    assert Join([issued, expires], '|') == issued + ['|'] + expires;
    assert Join(parts, '|') == "1" + ['|'] + (issued + ['|'] + expires);
    assert Payload(s) == Join(parts, '|');
    SplitJoin(parts, '|');
  }

  function Sign(mac: Mac, s: Session): string
    requires IsBytes(Payload(s)) && IsBytes(mac(Payload(s)))
  {
    Encode(URL, Payload(s)) + "." + Encode(URL, mac(Payload(s)))
  }

  // What the payload says, once its signature is believed.
  function ParsePayload(payload: string): Option<Session> {
    var fields := Split(payload, '|');
    if |fields| != 3 || fields[0] != "1" then None
    else
      match (ParseInt(fields[1]), ParseInt(fields[2]))
      case (Some(issued), Some(expires)) => Some(Session(issued * SECOND, expires * SECOND))
      case _ => None
  }

  // Every refusal is the same None.
  function Open(mac: Mac, value: string, now: int): Option<Session> {
    match Cut(value, '.')
    case None => None
    case Some((encPayload, encMac)) =>
      match (Decode(URL, encPayload), Decode(URL, encMac))
      case (Some(payload), Some(signature)) =>
        if signature != mac(payload) then None
        else
          (match ParsePayload(payload)
           case None => None
           case Some(s) => if now < s.expiresAt then Some(s) else None)
      case _ => None
  }

  // A value put together from a payload and a signature.
  lemma OpenAssembled(mac: Mac, payload: string, signature: string, now: int)
    requires IsBytes(payload) && IsBytes(signature)
    ensures Open(mac, Encode(URL, payload) + "." + Encode(URL, signature), now) ==
            if signature != mac(payload) then None
            else
              match ParsePayload(payload)
              case None => None
              case Some(s) => if now < s.expiresAt then Some(s) else None
  {
    EncodeAvoids(URL, payload, '.');
    CutFirst(Encode(URL, payload), Encode(URL, signature), '.');
    RoundTrip(URL, payload);
    RoundTrip(URL, signature);
  }

  lemma PayloadRoundTrip(s: Session)
    requires FitsInt64(s.issuedAt) && FitsInt64(s.expiresAt)
    ensures ParsePayload(Payload(s)) == Some(Truncated(s))
  {
    PayloadParts(s);
    ParseOfPrint(Unix(s.issuedAt));
    ParseOfPrint(Unix(s.expiresAt));
  }

  // Opening a signed session gives it back to the whole second, precisely while
  // the clock is before its truncated expiry.
  lemma OpenOfSign(mac: Mac, s: Session, now: int)
    requires IsMac(mac) && FitsInt64(s.issuedAt) && FitsInt64(s.expiresAt)
    ensures IsBytes(Payload(s))
    ensures Open(mac, Sign(mac, s), now) ==
            if now < Truncated(s).expiresAt then Some(Truncated(s)) else None
  {
    PayloadParts(s);
    PayloadRoundTrip(s);
    OpenAssembled(mac, Payload(s), mac(Payload(s)), now);
  }

  // ---------------------------------------------------------------------------
  // What opens.

  predicate FieldsOf(payload: string, issued: string, expires: string) {
    payload == "1|" + issued + "|" + expires && '|' !in issued && '|' !in expires
  }

  // The payload is "1|i|j" for numerals i and j of 64-bit integers.
  ghost predicate Says(payload: string, s: Session) {
    exists issued, expires, i, j ::
      && FieldsOf(payload, issued, expires) && Numeral(issued, i) && Numeral(expires, j)
      && INT64_MIN <= i <= INT64_MAX && INT64_MIN <= j <= INT64_MAX
      && s == Session(i * SECOND, j * SECOND)
  }

  lemma FieldsIff(payload: string, issued: string, expires: string)
    ensures FieldsOf(payload, issued, expires) <==> Split(payload, '|') == ["1", issued, expires]
  {
    var parts := ["1", issued, expires];
    JoinSplit(payload, '|');
    assert parts[1..] == [issued, expires] && parts[1..][1..] == [expires];
    assert Join([expires], '|') == expires && Join([issued, expires], '|') == issued + ['|'] + expires;
    assert Join(parts, '|') == "1" + ['|'] + (issued + ['|'] + expires) == "1|" + issued + "|" + expires;
    if FieldsOf(payload, issued, expires) {
      SplitJoin(parts, '|');
    }
    if Split(payload, '|') == parts {
      assert parts[1] == issued && parts[2] == expires;
    }
  }

  lemma ParsedSays(payload: string)
    requires ParsePayload(payload).Some?
    ensures Says(payload, ParsePayload(payload).value)
  {
    var fields := Split(payload, '|');
    assert fields == ["1", fields[1], fields[2]];
    FieldsIff(payload, fields[1], fields[2]);
    ParseIntIff(fields[1], ParseInt(fields[1]).value);
    ParseIntIff(fields[2], ParseInt(fields[2]).value);
  }

  lemma PayloadIff(payload: string, s: Session)
    ensures ParsePayload(payload) == Some(s) <==> Says(payload, s)
  {
    if ParsePayload(payload) == Some(s) {
      ParsedSays(payload);
    }
    if Says(payload, s) {
      var issued, expires, i, j :|
        && FieldsOf(payload, issued, expires) && Numeral(issued, i) && Numeral(expires, j)
        && INT64_MIN <= i <= INT64_MAX && INT64_MIN <= j <= INT64_MAX
        && s == Session(i * SECOND, j * SECOND);
      FieldsIff(payload, issued, expires);
      ParseIntIff(issued, i);
      ParseIntIff(expires, j);
    }
  }

  predicate CutInto(value: string, first: string, second: string) {
    '.' !in first && value == first + "." + second
  }

  // The value is two encoded parts around its first dot, and the second decodes to
  // the MAC of what the first decodes to, which says the session.
  ghost predicate Carries(mac: Mac, value: string, s: Session) {
    exists first, second ::
      && CutInto(value, first, second)
      && Decode(URL, first).Some? && Decode(URL, second) == Some(mac(Decode(URL, first).value))
      && Says(Decode(URL, first).value, s)
  }

  // Over every text whatever: a value opens as a session exactly while it carries it
  // and the clock is before the expiry it says.
  lemma OpenIff(mac: Mac, value: string, now: int, s: Session)
    ensures Open(mac, value, now) == Some(s) <==> Carries(mac, value, s) && now < s.expiresAt
  {
    CutIsFirst(value, '.');
    if Open(mac, value, now) == Some(s) {
      var (first, second) := Cut(value, '.').value;
      assert CutInto(value, first, second);
      PayloadIff(Decode(URL, first).value, s);
    }
    if Carries(mac, value, s) && now < s.expiresAt {
      var first, second :|
        && CutInto(value, first, second)
        && Decode(URL, first).Some? && Decode(URL, second) == Some(mac(Decode(URL, first).value))
        && Says(Decode(URL, first).value, s);
      CutFirst(first, second, '.');
      PayloadIff(Decode(URL, first).value, s);
    }
  }

  // So a cookie put together from any payload and any signature opens only if the
  // signature is the payload's MAC; one without a signature needs an empty MAC.
  lemma ForgedIsRefused(mac: Mac, payload: string, signature: string, now: int)
    requires IsBytes(payload) && IsBytes(signature)
    ensures Open(mac, Encode(URL, payload) + "." + Encode(URL, signature), now).Some? ==> signature == mac(payload)
  {
    OpenAssembled(mac, payload, signature, now);
  }

  // ---------------------------------------------------------------------------
  // How long.

  // A value either never opens or carries one session with one deadline, whatever
  // the clock says; so once refused it stays refused.
  lemma OneDeadline(mac: Mac, value: string)
    ensures (forall now :: Open(mac, value, now).None?)
            || exists s: Session :: forall now :: Open(mac, value, now) == if now < s.expiresAt then Some(s) else None
    ensures forall now, later :: now <= later && Open(mac, value, now).None? ==> Open(mac, value, later).None?
  {
    if now :| Open(mac, value, now).Some? {
      var s := Open(mac, value, now).value;
      forall t ensures Open(mac, value, t) == if t < s.expiresAt then Some(s) else None {
      }
    }
  }

  // The session `issue` puts in the cookie.
  function Issued(now: int, ttl: int): Session {
    Session(now, now + ttl)
  }

  // A cookie never outlives issue + ttl, and never dies a full second before it.
  lemma LifeOfCookie(mac: Mac, issue: int, ttl: int, now: int)
    requires IsMac(mac) && ttl > 0 && FitsInt64(issue) && FitsInt64(issue + ttl)
    ensures IsBytes(Payload(Issued(issue, ttl)))
    ensures var found := Open(mac, Sign(mac, Issued(issue, ttl)), now);
            && (found.Some? ==> now < issue + ttl && found.value.issuedAt <= issue < found.value.issuedAt + SECOND)
            && (now <= issue + ttl - SECOND ==> found.Some?)
  {
    OpenOfSign(mac, Issued(issue, ttl), now);
  }
}
