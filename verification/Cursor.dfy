/** Signed pagination cursors. HMAC is any function from keys and messages to digests of 32 bytes. */
module Cursor {
  import opened Calendar
  import opened Json
  import Base64
  import opened Search

  type Bytes = Base64.Bytes

  type Digest = b: Bytes | |b| == 32 witness seq(32, _ => 0)

  /** `filters` is the canonical JSON of a query's filter values, which holds texts of any script. */
  datatype Codec = Codec(key: Bytes, ttl: nat, mac: (Bytes, Bytes) -> Digest, filters: Query -> Bytes)

  datatype Boundary = Boundary(createdAt: Instant, id: int, page: int)

  /** int(now.timestamp()), which truncates toward zero. */
  function UnixSeconds(t: Instant): int {
    var micros := t - Midnight(UNIX_DAY);
    if micros >= 0 then micros / 1_000_000 else -((-micros) / 1_000_000)
  }

  /** 1970-01-01T00:00:00Z */
  function Epoch(): Instant { ToInstant(Civil(1970, 1, 1, 0, 0, 0, 0)) }

  lemma EpochIsMidnight()
    ensures Epoch() == Midnight(UNIX_DAY) && DayOf(Epoch()) % 7 == 3
  {
  }

  /** The Unix time of an instant is the number of whole seconds since the epoch. */
  lemma SecondsMean(t: Instant, seconds: int)
    requires seconds >= 1
    ensures seconds <= UnixSeconds(t) <==> t >= Epoch() + seconds * 1_000_000
  {
    hide ToInstant;
    EpochIsMidnight();
  }

  /** A token lives from the start of the second it was issued in. */
  lemma LifeInInstants(at: Instant, now: Instant, ttl: nat)
    ensures UnixSeconds(at) >= 1 <==> at >= Epoch() + 1_000_000
    ensures at >= Epoch() + 1_000_000 ==>
      (UnixSeconds(at) <= UnixSeconds(now) < UnixSeconds(at) + ttl
       <==> at - at % 1_000_000 <= now < at - at % 1_000_000 + ttl * 1_000_000)
  {
    hide UnixSeconds, Epoch;
    SecondsMean(at, 1);
    if at >= Epoch() + 1_000_000 {
      var s := UnixSeconds(at);
      SecondsMean(at, s);
      SecondsMean(at, s + 1);
      assert at - at % 1_000_000 == Epoch() + s * 1_000_000 by { WholeSecond(at, s); }
      SecondsMean(now, s);
      SecondsMean(now, s + ttl);
    }
  }

  lemma WholeSecond(at: Instant, s: nat)
    requires Epoch() + s * 1_000_000 <= at < Epoch() + (s + 1) * 1_000_000
    ensures at - at % 1_000_000 == Epoch() + s * 1_000_000
  {
    hide ToInstant;
    EpochIsMidnight();
    assert Epoch() == UNIX_DAY * 86_400 * 1_000_000;
    var whole := UNIX_DAY * 86_400 + s;
    assert whole * 1_000_000 <= at < whole * 1_000_000 + 1_000_000;
    assert at / 1_000_000 == whole;
  }

  predicate Octet(s: string) { forall c | c in s :: (c as int) < 256 }

  function OctetOf(c: char): Base64.Byte
    requires (c as int) < 256
  {
    c as int
  }

  function Octets(s: string): (b: Bytes)
    requires Octet(s)
    ensures |b| == |s| && forall i | 0 <= i < |s| :: b[i] == s[i] as int
  {
    if s == "" then [] else
      assert s[0] in s && forall c | c in s[1..] :: c in s;
      [OctetOf(s[0])] + Octets(s[1..])
  }

  function Characters(b: Bytes): (s: string)
    ensures Octet(s) && Octets(s) == b
  {
    seq(|b|, i requires 0 <= i < |b| => b[i] as char)
  }

  lemma CharactersOf(s: string)
    requires Octet(s)
    ensures Characters(Octets(s)) == s
  {
  }

  // ---------------------------------------------------------------- the payload

  const NAMES: seq<string> := ["ca", "exp", "ft", "iat", "id", "ot", "p", "ps", "v"]

  /** The nine members in the order sort_keys gives them. */
  function Payload(values: seq<Value>): (o: Members)
    requires |values| == 9
    ensures |o| == 9
  {
    seq(9, i requires 0 <= i < 9 => (NAMES[i], values[i]))
  }

  function OctetText(n: int): (s: string)
    ensures s == NumberText(n) && Octet(s)
  {
    NumberText(n)
  }

  function Tag(c: Codec, domain: string, value: Bytes): string
    requires Octet(domain)
  {
    Base64.Encode(c.mac(c.key, Octets(domain) + value))
  }

  function OwnerTag(c: Codec, owner: int): string { Tag(c, "owner\0", Octets(OctetText(owner))) }

  function FilterTag(c: Codec, query: Query): string { Tag(c, "filter\0", c.filters(query)) }

  function Values(c: Codec, owner: int, query: Query, b: Boundary, issued: int, version: Value): (values: seq<Value>)
    ensures |values| == 9
  {
    [Text(IsoText(b.createdAt)), Number(issued + c.ttl), Text(FilterTag(c, query)), Number(issued), Number(b.id),
     Text(OwnerTag(c, owner)), Number(b.page), Number(query.pageSize), version]
  }

  // ---------------------------------------------------------------- the token around a payload

  function Sign(c: Codec, text: string): string
    requires Octet(text)
  {
    var encoded := Base64.Encode(Octets(text));
    EncodedIsOctet(Octets(text));
    encoded + "." + Base64.Encode(c.mac(c.key, Octets(encoded)))
  }

  lemma EncodedIsOctet(b: Bytes)
    ensures Octet(Base64.Encode(b)) && Base64.Spelled(Base64.Encode(b)) && '.' !in Base64.Encode(b)
  {
    Base64.LooseInverse(b);
    SpelledIsOctet(Base64.Encode(b));
  }

  lemma SpelledIsOctet(s: string)
    requires Base64.Spelled(s)
    ensures Octet(s) && '.' !in s
  {
  }

  const LONGEST: nat := 2048

  /** The two halves of a token of the accepted shape. */
  function Halves(token: string): Option<(string, string)> {
    var n := Span(token, {'.'});
    if |token| > LONGEST || n == |token| || n == 0 || n + 1 == |token| || !Base64.Spelled(token[..n])
      || !Base64.Spelled(token[n + 1..])
    then None else Some((token[..n], token[n + 1..]))
  }

  /** The canonical text of an object with exactly the nine members. */
  function Nine(d: map<string, Value>): (values: seq<Value>)
    requires forall n | n in NAMES :: n in d
    ensures |values| == 9 && forall i | 0 <= i < 9 :: values[i] == d[NAMES[i]]
  {
    seq(9, i requires 0 <= i < 9 => d[NAMES[i]])
  }

  /** The payload text whose canonical form the text is, as its nine values. */
  function ReadPayload(text: string): Option<seq<Value>> {
    match Parse(text)
    case None => None
    case Some(pairs) =>
      match Dictionary(pairs)
      case None => None
      case Some(d) =>
        if d.Keys != (set n | n in NAMES) then None else
          if Render(Payload(Nine(d))) != text then None else Some(Nine(d))
  }

  /** The first half of decode: shape, signature, encoding, canonical JSON. */
  function Unpack(c: Codec, token: string): Option<seq<Value>> {
    match Halves(token)
    case None => None
    case Some((encoded, signature)) =>
      SpelledIsOctet(encoded);
      if Base64.Decode(signature) != Some(c.mac(c.key, Octets(encoded))) then None else
        match Base64.Decode(encoded)
        case None => None
        case Some(bytes) => ReadPayload(Characters(bytes))
  }

  // ---------------------------------------------------------------- the two operations

  /** _positive_int */
  function Positive(v: Value): Option<int> { if v.Number? && v.number >= 1 then Some(v.number) else None }

  function ParseTimestamp(text: string): Option<Instant> {
    match ParseText(text)
    case None => None
    case Some(t) => if IsoText(t) == text then Some(t) else None
  }

  /** Python's 1, True and 1.0 are equal, so all three pass the version check. */
  predicate IsVersion(v: Value) { v == Number(1) || v == Bare("true") || v == Bare("1.0") }

  /** The second half of decode: types, binding and time. */
  function Accept(c: Codec, values: seq<Value>, owner: int, query: Query, now: Instant): Option<Boundary>
    requires |values| == 9
  {
    var (ca, ft, ot) := (values[0], values[2], values[5]);
    var (exp, iat, id, page, size) :=
      (Positive(values[1]), Positive(values[3]), Positive(values[4]), Positive(values[6]), Positive(values[7]));
    if !IsVersion(values[8]) || !ca.Text? || !ft.Text? || !ot.Text? then None
    else if exp.None? || iat.None? || id.None? || page.None? || size.None? then None
    else if owner < 1 || ot.text != OwnerTag(c, owner) || ft.text != FilterTag(c, query)
      || size.value != query.pageSize then None
    else if exp.value != iat.value + c.ttl || iat.value > UnixSeconds(now) || UnixSeconds(now) >= exp.value then None
    else
      match ParseTimestamp(ca.text)
      case None => None
      case Some(createdAt) => Some(Boundary(createdAt, id.value, page.value))
  }

  predicate Issuable(owner: int, query: Query, b: Boundary) {
    owner >= 1 && b.id >= 1 && b.page >= 1 && query.pageSize >= 1 && Representable(b.createdAt)
  }

  /** encode; None is the ValueError for a number that is not positive. */
  function Issue(c: Codec, owner: int, query: Query, b: Boundary, now: Instant): Option<string>
    requires Representable(b.createdAt)
  {
    if !Issuable(owner, query, b) then None else
      var values := Values(c, owner, query, b, UnixSeconds(now), Number(1));
      ValuesAreOctet(c, owner, query, b, UnixSeconds(now), Number(1));
      Some(Sign(c, Render(Payload(values))))
  }

  function Decode(c: Codec, token: string, owner: int, query: Query, now: Instant): Option<Boundary> {
    match Unpack(c, token)
    case None => None
    case Some(values) => if |values| != 9 then None else Accept(c, values, owner, query, now)
  }

  // ---------------------------------------------------------------- what is safe to put on the wire

  predicate Safe(v: Value) { PlainValue(v) && Octet(Scalar(v)) }

  lemma {:induction false} RenderIsOctet(o: Members)
    requires o != [] && forall m | m in o :: Octet(m.0) && Octet(Scalar(m.1))
    ensures Octet(RenderMembers(o))
  {
    hide Scalar;
    assert o[0] in o;
    if |o| > 1 { RenderIsOctet(o[1..]); }
  }

  lemma {:induction false} LayoutLetters(values: seq<nat>, widths: seq<nat>, separators: string)
    requires |values| == |widths| == |separators|
    ensures forall c | c in Layout(values, widths, separators) :: IsDigit(c) || c in separators
  {
    if values != [] { LayoutLetters(values[1..], widths[1..], separators[1..]); }
  }

  lemma IsoIsSafe(t: Instant)
    ensures Safe(Text(IsoText(t)))
  {
    hide FromInstant, Layout;
    LayoutLetters(Fields(FromInstant(t)), WIDTHS, SEPARATORS);
  }

  lemma TagIsSafe(b: Bytes)
    ensures Safe(Text(Base64.Encode(b)))
  {
    EncodedIsOctet(b);
    assert !Base64.InAlphabet('"');
  }

  lemma NumberIsSafe(n: int)
    ensures Safe(Number(n))
  {
    assert Octet(OctetText(n));
  }

  lemma VersionIsSafe(v: Value)
    requires IsVersion(v)
    ensures Safe(v)
  {
    NumberIsSafe(1);
    assert "true"[0] in "true" && !IsDigit('t');
    assert "1.0"[1] in "1.0" && !IsDigit('.');
  }

  /** Every value encode can put in a payload is read back as itself. */
  lemma ValuesAreSafe(c: Codec, owner: int, query: Query, b: Boundary, issued: int, version: Value)
    requires IsVersion(version)
    ensures forall v | v in Values(c, owner, query, b, issued, version) :: Safe(v)
  {
    hide Safe, IsoText, FilterTag, OwnerTag, IsVersion, Octet, Octets;
    IsoIsSafe(b.createdAt);
    NumberIsSafe(issued + c.ttl);
    TagsAreSafe(c, owner, query);
    NumberIsSafe(issued);
    NumberIsSafe(b.id);
    NumberIsSafe(b.page);
    NumberIsSafe(query.pageSize);
    VersionIsSafe(version);
  }

  lemma TagsAreSafe(c: Codec, owner: int, query: Query)
    ensures Safe(Text(FilterTag(c, query))) && Safe(Text(OwnerTag(c, owner)))
  {
    hide Safe, Octets;
    TagIsSafe(c.mac(c.key, Octets("filter\0") + c.filters(query)));
    TagIsSafe(c.mac(c.key, Octets("owner\0") + Octets(OctetText(owner))));
  }

  lemma NamesArePlain()
    ensures forall n | n in NAMES :: Plain(n) && Octet(n)
    ensures forall i, j | 0 <= i < j < 9 :: NAMES[i] != NAMES[j]
  {
  }

  lemma SafePayload(values: seq<Value>)
    requires |values| == 9 && forall v | v in values :: Safe(v)
    ensures PlainMembers(Payload(values)) && Octet(Render(Payload(values)))
  {
    NamesArePlain();
    var o := Payload(values);
    forall m | m in o ensures Plain(m.0) && PlainValue(m.1) && Octet(m.0) && Octet(Scalar(m.1)) {
      var i :| 0 <= i < 9 && o[i] == m;
      assert NAMES[i] in NAMES && values[i] in values;
      assert Safe(values[i]);
    }
    RenderIsOctet(o);
  }

  lemma ValuesAreOctet(c: Codec, owner: int, query: Query, b: Boundary, issued: int, version: Value)
    requires IsVersion(version)
    ensures Octet(Render(Payload(Values(c, owner, query, b, issued, version))))
  {
    hide Safe, Render, Payload;
    ValuesAreSafe(c, owner, query, b, issued, version);
    SafePayload(Values(c, owner, query, b, issued, version));
  }

  // ---------------------------------------------------------------- the wire round trip

  /** A signed payload of safe values unpacks to those values, unless the token is too long. */
  lemma UnpackInvertsSign(c: Codec, values: seq<Value>)
    requires |values| == 9 && (forall v | v in values :: Safe(v)) && Octet(Render(Payload(values)))
    ensures var token := Sign(c, Render(Payload(values)));
      Unpack(c, token) == if |token| <= LONGEST then Some(values) else None
  {
    hide Safe, Render, Payload, ReadPayload, Octet, Base64.Encode, Base64.Decode, Octets, Characters;
    var text := Render(Payload(values));
    var encoded := Base64.Encode(Octets(text));
    EncodedIsOctet(Octets(text));
    var signature := Base64.Encode(c.mac(c.key, Octets(encoded)));
    EncodedIsOctet(c.mac(c.key, Octets(encoded)));
    Base64.DecodeInvertsEncode(Octets(text));
    Base64.DecodeInvertsEncode(c.mac(c.key, Octets(encoded)));
    Base64.EncodedLength(Octets(text));
    Base64.EncodedLength(c.mac(c.key, Octets(encoded)));
    TextNotEmpty(values);
    HalvesOf(encoded, signature);
    CharactersOf(text);
    PayloadReads(values);
  }

  lemma TextNotEmpty(values: seq<Value>)
    requires |values| == 9 && Octet(Render(Payload(values)))
    ensures Octets(Render(Payload(values))) != []
  {
  }

  lemma HalvesOf(encoded: string, signature: string)
    requires Base64.Spelled(encoded) && Base64.Spelled(signature) && encoded != "" && signature != ""
    ensures var token := encoded + "." + signature;
      Halves(token) == if |token| <= LONGEST then Some((encoded, signature)) else None
  {
    SpelledIsOctet(encoded);
    assert encoded + "." + signature == encoded + ("." + signature);
    SpanTo(encoded, {'.'}, "." + signature);
    var token := encoded + "." + signature;
    assert token[..|encoded|] == encoded && token[|encoded| + 1..] == signature;
  }

  lemma PayloadReads(values: seq<Value>)
    requires |values| == 9 && forall v | v in values :: Safe(v)
    ensures ReadPayload(Render(Payload(values))) == Some(values)
  {
    hide Safe, Render, Parse, Dictionary, Payload, Nine, Json.Holds, DistinctNames, PlainMembers, Octet;
    SafePayload(values);
    ParseInvertsRender(Payload(values));
    PayloadNames(values);
    DictionaryMeans(Payload(values));
    NineOf(Dictionary(Payload(values)).value, values);
  }

  lemma PayloadNames(values: seq<Value>)
    requires |values| == 9
    ensures DistinctNames(Payload(values))
  {
    hide Plain, Octet;
    NamesArePlain();
  }

  /** The dictionary of a payload holds its nine values under their names. */
  lemma NineOf(d: map<string, Value>, values: seq<Value>)
    requires |values| == 9 && Json.Holds(d, Payload(values))
    ensures d.Keys == (set n | n in NAMES) && Nine(d) == values
  {
    var o := Payload(values);
    forall n ensures n in d <==> n in NAMES {
      if Named(o, n) {
        var i :| 0 <= i < |o| && o[i].0 == n;
        assert NAMES[i] == n;
      }
      if n in NAMES {
        var i :| 0 <= i < 9 && NAMES[i] == n;
        assert o[i].0 == n;
      }
    }
    forall i | 0 <= i < 9 ensures d[NAMES[i]] == values[i] { assert o[i] == (NAMES[i], values[i]); }
  }

  // ---------------------------------------------------------------- what decode accepts

  /** The conditions under which a token issued for one request is good for another. */
  ghost predicate GoodFor(
      c: Codec, token: string, issued: int, owner: int, query: Query, owner': int, query': Query, now: Instant)
  {
    Bound(c, token, owner, query, owner', query') && 1 <= issued <= UnixSeconds(now) < issued + c.ttl
  }

  /** The part of them that does not depend on the time. */
  ghost predicate Bound(c: Codec, token: string, owner: int, query: Query, owner': int, query': Query) {
    && |token| <= 2048 && owner' >= 1
    && OwnerTag(c, owner') == OwnerTag(c, owner) && FilterTag(c, query') == FilterTag(c, query)
      && query'.pageSize == query.pageSize
  }

  /** Issued from the first whole second of Unix time on, and presented within `ttl` seconds of the second it was issued
      in. */
  ghost predicate Alive(at: Instant, now: Instant, ttl: nat) {
    && at >= Epoch() + 1_000_000
    && at - at % 1_000_000 <= now < at - at % 1_000_000 + ttl * 1_000_000
  }

  lemma TimestampReads(t: Instant)
    requires Representable(t)
    ensures ParseTimestamp(IsoText(t)) == Some(t)
  {
    IsoRoundTrip(t);
  }

  lemma AcceptValues(
      c: Codec, token: string, issued: int, version: Value, owner: int, query: Query, b: Boundary, owner': int,
        query': Query, now: Instant)
    requires Issuable(owner, query, b) && |token| <= LONGEST && IsVersion(version)
    ensures Accept(c, Values(c, owner, query, b, issued, version), owner', query', now)
      == if GoodFor(c, token, issued, owner, query, owner', query', now) then Some(b) else None
  {
    hide OwnerTag, FilterTag, UnixSeconds, ParseTimestamp, IsoText, Representable;
    TimestampReads(b.createdAt);
  }

  /** Decoding an issued token gives the boundary back exactly when the owner, filters and page size are the token's
      own and the time is within its life; it was issued after the epoch, and it is not over-long. In every other case
      it is refused. */
  lemma DecodeOfIssued(
      c: Codec, owner: int, query: Query, b: Boundary, at: Instant, owner': int, query': Query, now: Instant)
    requires Representable(b.createdAt) && Issue(c, owner, query, b, at).Some?
    ensures var token := Issue(c, owner, query, b, at).value;
      Decode(c, token, owner', query', now)
      == if Bound(c, token, owner, query, owner', query') && Alive(at, now, c.ttl) then Some(b) else None
  {
    hide Values, Epoch, Sign, Unpack, Accept, Render, Payload, UnixSeconds, Octet, Safe, OwnerTag, FilterTag;
    var values := Values(c, owner, query, b, UnixSeconds(at), Number(1));
    ValuesAreOctet(c, owner, query, b, UnixSeconds(at), Number(1));
    ValuesAreSafe(c, owner, query, b, UnixSeconds(at), Number(1));
    UnpackInvertsSign(c, values);
    LifeInInstants(at, now, c.ttl);
    var token := Issue(c, owner, query, b, at).value;
    if |token| <= LONGEST { AcceptValues(c, token, UnixSeconds(at), Number(1), owner, query, b, owner', query', now); }
  }

  lemma DecodedReencodes(s: string)
    ensures Base64.Decode(s).Some? ==> Base64.Encode(Base64.Decode(s).value) == s
  {
  }

  lemma HalvesJoin(token: string)
    requires Halves(token).Some?
    ensures var (encoded, signature) := Halves(token).value;
      token == encoded + "." + signature && Base64.Spelled(encoded) && Octet(encoded) && |token| <= LONGEST
  {
    SpelledIsOctet(Halves(token).value.0);
  }

  /** A payload text is read only if it is the canonical one of the values read. */
  lemma ReadIsCanonical(text: string)
    requires ReadPayload(text).Some?
    ensures |ReadPayload(text).value| == 9 && Render(Payload(ReadPayload(text).value)) == text
  {
    hide Parse, Dictionary, Render;
  }

  lemma UnpackedIsSigned(c: Codec, token: string)
    requires Unpack(c, token).Some?
    ensures var values := Unpack(c, token).value;
      |values| == 9 && Octet(Render(Payload(values))) && token == Sign(c, Render(Payload(values))) && |token| <= LONGEST
  {
    hide Base64.Decode, Base64.Encode, Base64.Spelled, Render, Payload, Halves, ReadPayload, Octet, Octets, Characters;
    var (encoded, signature) := Halves(token).value;
    HalvesJoin(token);
    DecodedReencodes(encoded);
    DecodedReencodes(signature);
    ReadIsCanonical(Characters(Base64.Decode(encoded).value));
  }

  lemma AcceptedValues(c: Codec, values: seq<Value>, owner: int, query: Query, now: Instant)
    requires |values| == 9 && Accept(c, values, owner, query, now).Some? && Positive(values[3]).Some?
    ensures var b := Accept(c, values, owner, query, now).value; var issued := values[3].number;
      && values == Values(c, owner, query, b, issued, values[8])
      && IsVersion(values[8]) && owner >= 1 && b.id >= 1 && b.page >= 1 && query.pageSize >= 1
      && 1 <= issued <= UnixSeconds(now) < issued + c.ttl
  {
    hide OwnerTag, FilterTag, UnixSeconds, ParseText, IsoText;
    var b := Accept(c, values, owner, query, now).value;
    var expected := Values(c, owner, query, b, values[3].number, values[8]);
    assert forall i | 0 <= i < 9 :: values[i] == expected[i];
  }

  /** The token signed for the values of that boundary, owner, filters and page size, within its life. */
  ghost predicate SignedFor(
      c: Codec, token: string, owner: int, query: Query, b: Boundary, now: Instant, issued: int, version: Value)
  {
    && version in {Number(1), Bare("true"), Bare("1.0")}
    && issued >= 1 && Epoch() + issued * 1_000_000 <= now < Epoch() + (issued + c.ttl) * 1_000_000
    && Octet(Render(Payload(Values(c, owner, query, b, issued, version))))
    && token == Sign(c, Render(Payload(Values(c, owner, query, b, issued, version))))
  }

  lemma {:induction false} NumberBound(digits: string)
    requires forall d | d in digits :: IsDigit(d)
    ensures NumberOf(digits) < Pow10(|digits|)
  {
    if digits != [] {
      NumberBound(digits[..|digits| - 1]);
      assert digits[|digits| - 1] in digits && DigitValue(digits[|digits| - 1]) <= 9;
      assert Pow10(|digits|) == 10 * Pow10(|digits| - 1);
    }
  }

  /** A text of the fixed layout has a year of four digits. */
  lemma ParsedIsRepresentable(text: string)
    ensures ParseText(text).Some? ==> Representable(ParseText(text).value)
  {
    if ParseText(text).Some? {
      var v := ReadLayout(text, WIDTHS, SEPARATORS).value;
      YearRead(text, v);
      var civil := Civil(v[0], v[1], v[2], v[3], v[4], v[5], v[6]);
      CivilRoundTrip(civil);
      YearBound(ToInstant(civil));
    }
  }

  lemma YearRead(text: string, v: seq<nat>)
    requires ReadLayout(text, WIDTHS, SEPARATORS) == Some(v)
    ensures v != [] && v[0] <= 9999
  {
    assert WIDTHS[0] == 4;
    NumberBound(text[..4]);
    assert Pow10(2) == 100 && Pow10(4) == 100 * Pow10(2);
  }

  /** Whatever decode accepts is a token this codec signs for just that boundary, owner, filters and page size, issued
      within the last ttl seconds; the version may also be spelled as the other two Python values equal to 1. */
  lemma AcceptedIsIssued(
      c: Codec, token: string, owner: int, query: Query, now: Instant) returns (issued: int, version: Value)
    requires Decode(c, token, owner, query, now).Some?
    ensures var b := Decode(c, token, owner, query, now).value;
      Issuable(owner, query, b) && SignedFor(c, token, owner, query, b, now, issued, version) && |token| <= 2048
  {
    hide Unpack, Values, Sign, Render, Payload, Octet, UnixSeconds, OwnerTag, FilterTag, ParseText, IsoText,
      Representable, Epoch;
    UnpackedIsSigned(c, token);
    var values := Unpack(c, token).value;
    issued, version := values[3].number, values[8];
    AcceptedValues(c, values, owner, query, now);
    SecondsMean(now, issued);
    SecondsMean(now, issued + c.ttl);
    ParsedIsRepresentable(values[0].text);
  }

  /** Every such token is accepted, however the version is spelled. */
  lemma SignedIsAccepted(
      c: Codec, token: string, owner: int, query: Query, b: Boundary, now: Instant, issued: int, version: Value)
    requires Issuable(owner, query, b) && SignedFor(c, token, owner, query, b, now, issued, version)
      && |token| <= 2048
    ensures Decode(c, token, owner, query, now) == Some(b)
  {
    hide Values, Sign, Unpack, Accept, Render, Payload, UnixSeconds, Octet, Safe, OwnerTag, FilterTag, Epoch;
    SecondsMean(now, issued);
    SecondsMean(now, issued + c.ttl);
    ValuesAreSafe(c, owner, query, b, issued, version);
    UnpackInvertsSign(c, Values(c, owner, query, b, issued, version));
    AcceptValues(c, token, issued, version, owner, query, b, owner, query, now);
  }

  /** Decode returns a boundary exactly for the tokens signed for it under the same owner, filters and page size, within
      their life and length, with the version spelled in any of the three ways. */
  lemma DecodeAcceptsExactly(c: Codec, token: string, owner: int, query: Query, b: Boundary, now: Instant)
    ensures Decode(c, token, owner, query, now) == Some(b) <==>
      && Issuable(owner, query, b) && |token| <= 2048
      && exists issued, version :: SignedFor(c, token, owner, query, b, now, issued, version)
  {
    hide Decode, SignedFor, Issuable;
    if Decode(c, token, owner, query, now) == Some(b) {
      var issued, version := AcceptedIsIssued(c, token, owner, query, now);
    }
    if Issuable(owner, query, b) && |token| <= 2048 {
      forall issued, version | SignedFor(c, token, owner, query, b, now, issued, version)
        ensures Decode(c, token, owner, query, now) == Some(b)
      {
        SignedIsAccepted(c, token, owner, query, b, now, issued, version);
      }
    }
  }

  // ---------------------------------------------------------------- binding, and the text on the wire

  ghost predicate NoCollision(c: Codec, m: Bytes, m': Bytes) { c.mac(c.key, m) == c.mac(c.key, m') ==> m == m' }

  lemma EncodesOnce(b: Bytes, b': Bytes)
    requires b != [] && b' != []
    ensures Base64.Encode(b) == Base64.Encode(b') <==> b == b'
  {
    hide Base64.Encode, Base64.Decode;
    Base64.DecodeInvertsEncode(b);
    Base64.DecodeInvertsEncode(b');
  }

  lemma NumbersDiffer(n: int, n': int)
    ensures NumberText(n) == NumberText(n') <==> n == n'
  {
    NumberReads(n);
    NumberReads(n');
  }

  lemma OctetsApart(s: string, s': string)
    requires Octet(s) && Octet(s')
    ensures Octets(s) == Octets(s') <==> s == s'
  {
    CharactersOf(s);
    CharactersOf(s');
  }

  /** The bytes of "owner", a zero byte, and the number's digits. */
  function OwnerMessage(owner: int): (m: Bytes)
    ensures |m| >= 6 && m[..6] == [111, 119, 110, 101, 114, 0] && m[6..] == Octets(OctetText(owner))
  {
    Octets("owner\0") + Octets(OctetText(owner))
  }

  /** The bytes of "filter", a zero byte, and the canonical filters. */
  function FilterMessage(c: Codec, query: Query): (m: Bytes)
    ensures |m| >= 7 && m[..7] == [102, 105, 108, 116, 101, 114, 0] && m[7..] == c.filters(query)
  {
    Octets("filter\0") + c.filters(query)
  }

  lemma TagsAreDigests(c: Codec, owner: int, query: Query)
    ensures OwnerTag(c, owner) == Base64.Encode(c.mac(c.key, OwnerMessage(owner)))
    ensures FilterTag(c, query) == Base64.Encode(c.mac(c.key, FilterMessage(c, query)))
  {
    hide Octets, OctetText, Base64.Encode;
  }

  lemma MessagesDiffer(c: Codec, owner: int, query: Query, owner': int, query': Query)
    ensures OwnerMessage(owner) == OwnerMessage(owner') <==> owner == owner'
    ensures FilterMessage(c, query) == FilterMessage(c, query') <==> c.filters(query) == c.filters(query')
  {
    hide Octets, OctetText;
    AppendedDiffer(Octets("owner\0"), Octets(OctetText(owner)), Octets(OctetText(owner')));
    OctetsApart(OctetText(owner), OctetText(owner'));
    NumbersDiffer(owner, owner');
    AppendedDiffer(Octets("filter\0"), c.filters(query), c.filters(query'));
  }

  lemma AppendedDiffer(domain: Bytes, m: Bytes, m': Bytes)
    ensures domain + m == domain + m' <==> m == m'
  {
    assert (domain + m)[|domain|..] == m && (domain + m')[|domain|..] == m';
  }

  /** Unless the digests of the two owners or of the two filters collide, an issued token decodes for its own owner,
      filters and page size alone, from the second it was issued in until `ttl` seconds later. */
  lemma BindingIsExact(
      c: Codec, owner: int, query: Query, b: Boundary, at: Instant, owner': int, query': Query, now: Instant)
    requires Representable(b.createdAt) && Issue(c, owner, query, b, at).Some?
    requires NoCollision(c, OwnerMessage(owner), OwnerMessage(owner'))
    requires NoCollision(c, FilterMessage(c, query), FilterMessage(c, query'))
    ensures var token := Issue(c, owner, query, b, at).value; var second := at - at % 1_000_000;
      Decode(c, token, owner', query', now) ==
        if |token| <= 2048
          && owner' == owner && c.filters(query') == c.filters(query) && query'.pageSize == query.pageSize
          && at >= ToInstant(Civil(1970, 1, 1, 0, 0, 1, 0)) && second <= now < second + c.ttl * 1_000_000
        then Some(b) else None
  {
    hide Decode, OwnerTag, FilterTag, Representable, Epoch, OwnerMessage, FilterMessage, Sign, Render, Payload, Values,
      Base64.Encode, Octet;
    DecodeOfIssued(c, owner, query, b, at, owner', query', now);
    TagsAreDigests(c, owner, query);
    TagsAreDigests(c, owner', query');
    MessagesDiffer(c, owner, query, owner', query');
    EncodesOnce(c.mac(c.key, OwnerMessage(owner)), c.mac(c.key, OwnerMessage(owner')));
    EncodesOnce(c.mac(c.key, FilterMessage(c, query)), c.mac(c.key, FilterMessage(c, query')));
    FirstSecond();
  }

  lemma FirstSecond()
    ensures ToInstant(Civil(1970, 1, 1, 0, 0, 1, 0)) == Epoch() + 1_000_000
  {
  }

  /** "name":scalar and what comes after it. */
  function Member(name: string, scalar: string, rest: string): string { "\"" + name + "\":" + scalar + rest }

  function Quoted(text: string): string { "\"" + text + "\"" }

  /** The canonical JSON text of an issued payload: its members by name and in order, without spaces. */
  function PayloadText(c: Codec, owner: int, query: Query, b: Boundary, issued: int): string {
    "{" + Member("ca", Quoted(IsoText(b.createdAt)), "," +
    Member("exp", NumberText(issued + c.ttl), "," +
    Member("ft", Quoted(Base64.Encode(c.mac(c.key, FilterMessage(c, query)))), "," +
    Member("iat", NumberText(issued), "," +
    Member("id", NumberText(b.id), "," +
    Member("ot", Quoted(Base64.Encode(c.mac(c.key, OwnerMessage(owner)))), "," +
    Member("p", NumberText(b.page), "," +
    Member("ps", NumberText(query.pageSize), "," +
    Member("v", "1", "}")))))))))
  }

  lemma Unrolled(o: Members, i: nat)
    requires i < |o|
    ensures RenderMembers(o[i..]) ==
      Member(o[i].0, Scalar(o[i].1), if i + 1 == |o| then "}" else "," + RenderMembers(o[i + 1..]))
  {
    hide Scalar;
    assert o[i..][1..] == o[i + 1..];
  }

  lemma RenderedText(c: Codec, owner: int, query: Query, b: Boundary, issued: int)
    ensures Render(Payload(Values(c, owner, query, b, issued, Number(1)))) == PayloadText(c, owner, query, b, issued)
  {
    hide IsoText, OwnerTag, FilterTag, OwnerMessage, FilterMessage, Base64.Encode, NumberText, RenderMembers, Member;
    var values := Values(c, owner, query, b, issued, Number(1));
    var o := Payload(values);
    TagsAreDigests(c, owner, query);
    assert NumberText(1) == "1" by { OneText(); }
    assert o[0..] == o;
    Unrolled(o, 8);
    Unrolled(o, 7);
    Unrolled(o, 6);
    Unrolled(o, 5);
    Unrolled(o, 4);
    Unrolled(o, 3);
    Unrolled(o, 2);
    Unrolled(o, 1);
    Unrolled(o, 0);
  }

  lemma OneText()
    ensures NumberText(1) == "1"
  {
  }

  /** An issued token is the encoded payload, a dot, and the encoded digest of the part before the dot; `iat` is the
      number of whole seconds since the epoch. */
  lemma IssuedText(c: Codec, owner: int, query: Query, b: Boundary, at: Instant)
    requires Representable(b.createdAt) && Issue(c, owner, query, b, at).Some?
    requires at >= ToInstant(Civil(1970, 1, 1, 0, 0, 0, 0))
    ensures var issued := (at - ToInstant(Civil(1970, 1, 1, 0, 0, 0, 0))) / 1_000_000;
      var text := PayloadText(c, owner, query, b, issued);
      Octet(text) &&
      var encoded := Base64.Encode(Octets(text));
      Octet(encoded)
      && Issue(c, owner, query, b, at).value == encoded + "." + Base64.Encode(c.mac(c.key, Octets(encoded)))
  {
    hide PayloadText, Values, Octets, Base64.Encode, Representable, ToInstant, Render, Payload, Octet;
    EpochIsMidnight();
    var issued := UnixSeconds(at);
    assert issued == (at - Epoch()) / 1_000_000;
    ValuesAreOctet(c, owner, query, b, issued, Number(1));
    RenderedText(c, owner, query, b, issued);
    EncodedIsOctet(Octets(Render(Payload(Values(c, owner, query, b, issued, Number(1))))));
  }

  // ---------------------------------------------------------------- token length

  lemma {:induction false} MembersLength(o: Members)
    requires o != [] && forall m | m in o :: |m.0| + |Scalar(m.1)| <= 103
    ensures |RenderMembers(o)| <= 107 * |o|
  {
    hide Scalar;
    assert o[0] in o;
    if |o| > 1 {
      forall m | m in o[1..] ensures m in o {}
      MembersLength(o[1..]);
    }
  }

  lemma {:induction false} LayoutLength(values: seq<nat>, widths: seq<nat>, separators: string, each: nat)
    requires |values| == |widths| == |separators| && forall i | 0 <= i < |widths| :: widths[i] <= each
    ensures |Layout(values, widths, separators)| <= (each + 1) * |values|
  {
    if values != [] {
      LayoutLength(values[1..], widths[1..], separators[1..], each);
      assert (each + 1) * |values| == (each + 1) * |values[1..]| + each + 1;
    }
  }

  /** With numbers of up to a hundred digits a token is never over-long. */
  lemma TokenFits(c: Codec, owner: int, query: Query, b: Boundary, at: Instant)
    requires Representable(b.createdAt) && Issue(c, owner, query, b, at).Some?
    requires forall n | n in [UnixSeconds(at) + c.ttl, UnixSeconds(at), b.id, b.page, query.pageSize] ::
      |NumberText(n)| <= 100
    ensures |Issue(c, owner, query, b, at).value| <= 2048
  {
    hide Octet, NumberText, UnixSeconds, IsoText, Base64.Encode, OwnerTag, FilterTag;
    var values := Values(c, owner, query, b, UnixSeconds(at), Number(1));
    var o := Payload(values);
    ScalarsFit(c, owner, query, b, UnixSeconds(at));
    forall m | m in o ensures |m.0| + |Scalar(m.1)| <= 103 {
      var i :| 0 <= i < 9 && o[i] == m;
      assert |NAMES[i]| <= 3;
      assert values[i] in values;
    }
    MembersLength(o);
    ValuesAreOctet(c, owner, query, b, UnixSeconds(at), Number(1));
    var text := Render(o);
    Base64.EncodedLength(Octets(text));
    EncodedIsOctet(Octets(text));
    Base64.EncodedLength(c.mac(c.key, Octets(Base64.Encode(Octets(text)))));
  }

  lemma ScalarsFit(c: Codec, owner: int, query: Query, b: Boundary, issued: int)
    requires forall n | n in [issued + c.ttl, issued, b.id, b.page, query.pageSize] :: |NumberText(n)| <= 100
    ensures forall v | v in Values(c, owner, query, b, issued, Number(1)) :: |Scalar(v)| <= 100
  {
    hide NumberText, IsoText, FilterTag, OwnerTag;
    IsoLength(b.createdAt);
    TagLengths(c, owner, query);
    OneIsShort();
  }

  lemma TagLengths(c: Codec, owner: int, query: Query)
    ensures |FilterTag(c, query)| <= 43 && |OwnerTag(c, owner)| <= 43
  {
    hide Base64.Encode, Octets, OctetText;
    TagLength(c, "filter\0", c.filters(query));
    TagLength(c, "owner\0", Octets(OctetText(owner)));
  }

  lemma IsoLength(t: Instant)
    ensures |IsoText(t)| <= 49
  {
    LayoutLength(Fields(FromInstant(t)), WIDTHS, SEPARATORS, 6);
  }

  lemma OneIsShort()
    ensures |NumberText(1)| == 1
  {
  }

  lemma TagLength(c: Codec, domain: string, value: Bytes)
    requires Octet(domain)
    ensures |Tag(c, domain, value)| <= 43
  {
    Base64.EncodedLength(c.mac(c.key, Octets(domain) + value));
  }
}
