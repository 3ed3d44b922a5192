/**
  From a STUN binding request to the ufrag it is addressed to. The layout is that of RFC 5389: header in
  section 6, padded attributes in section 15, USERNAME in section 15.3.
 */
module Stun {
  import opened Wrappers
  import opened Bytes
  import Utf8

  const HEADER_LEN: nat := 20
  const ATTR_HEADER_LEN: nat := 4
  const BINDING_REQUEST: u16 := 0x0001
  const ATTR_USERNAME: u16 := 0x0006
  const MAGIC_COOKIE: seq<byte> := [0x21, 0x12, 0xA4, 0x42]
  const COLON: byte := 0x3A

  /** Why the walk over the attribute section stopped. */
  datatype ScanEnd =
    | FoundUsername(value: seq<byte>)
    | Exhausted(left: nat)
    | ValueOverrun
    | PaddingOverrun

  /** The attribute walk; each branch is a branch of the source's loop. */
  function ScanAttrs(attrs: seq<byte>): ScanEnd
    decreases |attrs|
  {
    if |attrs| < ATTR_HEADER_LEN then Exhausted(|attrs|)
    else
      var attrLen := FromBeBytes(attrs[2], attrs[3]);
      if ATTR_HEADER_LEN + attrLen > |attrs| then ValueOverrun
      else if FromBeBytes(attrs[0], attrs[1]) == ATTR_USERNAME then
        FoundUsername(attrs[ATTR_HEADER_LEN..ATTR_HEADER_LEN + attrLen])
      else if ATTR_HEADER_LEN + PaddedLen(attrLen) > |attrs| then PaddingOverrun
      else ScanAttrs(attrs[ATTR_HEADER_LEN + PaddedLen(attrLen)..])
  }

  predicate HeaderOk(packet: seq<byte>) {
    && |packet| >= HEADER_LEN
    && packet[4..8] == MAGIC_COOKIE
    && FromBeBytes(packet[0], packet[1]) == BINDING_REQUEST
    && FromBeBytes(packet[2], packet[3]) % 4 == 0
    && HEADER_LEN + FromBeBytes(packet[2], packet[3]) == |packet|
  }

  /** The first piece of splitting `value` at colons. */
  function BeforeColon(value: seq<byte>): (u: seq<byte>)
    ensures u <= value && COLON !in u
    ensures |u| < |value| ==> value[|u|] == COLON
  {
    if value == [] || value[0] == COLON then [] else [value[0]] + BeforeColon(value[1..])
  }

  /** The ufrag a USERNAME value stands for, if it is usable. */
  function UfragOf(value: seq<byte>): Option<seq<byte>> {
    var u := BeforeColon(value);
    if Utf8.Valid(u) && u != [] then Some(u) else None
  }

  /** What the endpoint's routing sees of a datagram. */
  function UfragIn(packet: seq<byte>): Option<seq<byte>> {
    if !HeaderOk(packet) then None
    else
      match ScanAttrs(packet[HEADER_LEN..])
      case FoundUsername(value) => UfragOf(value)
      case _ => None
  }

  /** The parser as the source writes it, proved against the declarative grammar below. */
  method LocalUfrag(packet: seq<byte>) returns (r: Option<seq<byte>>)
    ensures r == UfragIn(packet)
    ensures forall u :: r == Some(u) <==> IsRequestFor(packet, u)
  {
    forall u ensures UfragIn(packet) == Some(u) <==> IsRequestFor(packet, u) {
      ParserMeetsGrammar(packet, u);
    }
    if |packet| < HEADER_LEN || packet[4..8] != MAGIC_COOKIE {
      return None;
    }
    if FromBeBytes(packet[0], packet[1]) != BINDING_REQUEST {
      return None;
    }
    var msgLen := FromBeBytes(packet[2], packet[3]);
    AndThreeIsRemainder(msgLen);
    if BitAnd(msgLen, 3) != 0 || HEADER_LEN + msgLen != |packet| {
      return None;
    }
    var attrs := packet[HEADER_LEN..];
    while |attrs| >= ATTR_HEADER_LEN
      invariant ScanAttrs(attrs) == ScanAttrs(packet[HEADER_LEN..])
      decreases |attrs|
    {
      var attrType := FromBeBytes(attrs[0], attrs[1]);
      var attrLen := FromBeBytes(attrs[2], attrs[3]);
      if ATTR_HEADER_LEN + attrLen > |attrs| {
        return None;
      }
      var value := attrs[ATTR_HEADER_LEN..ATTR_HEADER_LEN + attrLen];
      if attrType == ATTR_USERNAME {
        var ufrag := BeforeColon(value);
        if Utf8.Valid(ufrag) && ufrag != [] {
          return Some(ufrag);
        }
        return None;
      }
      MaskIsPaddedLen(attrLen);
      var paddedLen := BitAndNot(attrLen + 3, 3);
      if ATTR_HEADER_LEN + paddedLen > |attrs| {
        return None;
      }
      attrs := attrs[ATTR_HEADER_LEN + paddedLen..];
    }
    return None;
  }

  // ------------------------------------------------------------------ the grammar

  /** One attribute: type, value, and 0 to 3 bytes of padding up to a 32-bit boundary. */
  datatype Attr = Attr(typ: u16, value: seq<byte>, padding: seq<byte>) {
    predicate WellFormed() {
      && |value| < 0x1_0000
      && |padding| < 4
      && (|value| + |padding|) % 4 == 0
    }
  }

  type WireAttr = a: Attr | a.WellFormed() witness Attr(0, [], [])

  function AttrHeader(typ: u16, len: u16): seq<byte> {
    ToBeBytes(typ) + ToBeBytes(len)
  }

  function EncodeAttr(a: WireAttr): seq<byte> {
    AttrHeader(a.typ, |a.value|) + a.value + a.padding
  }

  function EncodeAttrs(attrs: seq<WireAttr>): seq<byte> {
    if attrs == [] then [] else EncodeAttr(attrs[0]) + EncodeAttrs(attrs[1..])
  }

  function Header(msgLen: u16, transactionId: seq<byte>): seq<byte> {
    ToBeBytes(BINDING_REQUEST) + ToBeBytes(msgLen) + MAGIC_COOKIE + transactionId
  }

  function EncodeRequest(transactionId: seq<byte>, attrs: seq<WireAttr>): seq<byte>
    requires |EncodeAttrs(attrs)| < 0x1_0000
  {
    Header(|EncodeAttrs(attrs)|, transactionId) + EncodeAttrs(attrs)
  }

  function FirstUsername(attrs: seq<WireAttr>): Option<seq<byte>> {
    if attrs == [] then None
    else if attrs[0].typ == ATTR_USERNAME then Some(attrs[0].value)
    else FirstUsername(attrs[1..])
  }

  /** A USERNAME with value `name`, followed by `rest`. */
  function UsernameThen(name: seq<byte>, rest: seq<byte>): seq<byte>
    requires |name| < 0x1_0000
  {
    AttrHeader(ATTR_USERNAME, |name|) + name + rest
  }

  /** `u` is the part of `name` in front of its first colon. */
  ghost predicate IsLocalPart(u: seq<byte>, name: seq<byte>) {
    && u <= name
    && COLON !in u
    && (|u| == |name| || name[|u|] == COLON)
  }

  /**
    `packet` is a binding request header, a run of attributes other than USERNAME, a USERNAME whose
    value fits, and anything up to a 32-bit boundary.
   */
  ghost predicate IsRequestWith(packet: seq<byte>, transactionId: seq<byte>, before: seq<WireAttr>,
                                name: seq<byte>, rest: seq<byte>)
  {
    && HEADER_LEN <= |packet| < HEADER_LEN + 0x1_0000 && |packet| % 4 == 0
    && |transactionId| == 12
    && |name| < 0x1_0000
    && (forall a <- before :: a.typ != ATTR_USERNAME)
    && packet == Header(|packet| - HEADER_LEN, transactionId)
              + (EncodeAttrs(before) + UsernameThen(name, rest))
  }

  ghost predicate IsRequestFor(packet: seq<byte>, u: seq<byte>) {
    && u != [] && Utf8.Valid(u)
    && exists transactionId, before, name, rest ::
         IsRequestWith(packet, transactionId, before, name, rest) && IsLocalPart(u, name)
  }

  // ------------------------------------------------------------------ parser and grammar agree

  lemma LocalPartIsBeforeColon(u: seq<byte>, name: seq<byte>)
    requires IsLocalPart(u, name)
    ensures u == BeforeColon(name)
  {
  }

  lemma AttrHeaderFields(typ: u16, len: u16, tail: seq<byte>)
    ensures var s := AttrHeader(typ, len) + tail;
      && s[..4] == AttrHeader(typ, len) && s[4..] == tail
      && FromBeBytes(s[0], s[1]) == typ && FromBeBytes(s[2], s[3]) == len
  {
    BeRoundTrip(typ);
    BeRoundTrip(len);
  }

  /** The walk steps over an attribute that is not USERNAME. */
  lemma ScanStepsOver(a: WireAttr, tail: seq<byte>)
    requires a.typ != ATTR_USERNAME
    ensures ScanAttrs(EncodeAttr(a) + tail) == ScanAttrs(tail)
  {
    var s := EncodeAttr(a) + tail;
    assert s == AttrHeader(a.typ, |a.value|) + (a.value + a.padding + tail);
    AttrHeaderFields(a.typ, |a.value|, a.value + a.padding + tail);
    PaddingIsUnique(|a.value|, |a.padding|);
    assert s[4 + (|a.value| + |a.padding|)..] == tail;
  }

  lemma {:induction false} ScanSkips(before: seq<WireAttr>, tail: seq<byte>)
    requires forall a <- before :: a.typ != ATTR_USERNAME
    ensures ScanAttrs(EncodeAttrs(before) + tail) == ScanAttrs(tail)
  {
    if before == [] {
      assert EncodeAttrs(before) + tail == tail;
    } else {
      var a, more := before[0], EncodeAttrs(before[1..]) + tail;
      assert EncodeAttrs(before) + tail == EncodeAttr(a) + more;
      ScanStepsOver(a, more);
      ScanSkips(before[1..], tail);
    }
  }

  lemma UsernameIsFound(name: seq<byte>, rest: seq<byte>)
    requires |name| < 0x1_0000
    ensures ScanAttrs(UsernameThen(name, rest)) == FoundUsername(name)
  {
    var s := UsernameThen(name, rest);
    assert s == AttrHeader(ATTR_USERNAME, |name|) + (name + rest);
    AttrHeaderFields(ATTR_USERNAME, |name|, name + rest);
  }

  lemma HeaderIsAttrHeader(attrs: seq<byte>)
    requires |attrs| >= 4
    ensures attrs == AttrHeader(FromBeBytes(attrs[0], attrs[1]), FromBeBytes(attrs[2], attrs[3])) + attrs[4..]
  {
    assert attrs[..2] == ToBeBytes(FromBeBytes(attrs[0], attrs[1]));
    assert attrs[2..4] == ToBeBytes(FromBeBytes(attrs[2], attrs[3]));
    assert attrs == attrs[..2] + attrs[2..4] + attrs[4..];
  }

  /** What the walk steps over is the encoding of an attribute. */
  lemma SteppedOverIsAttr(attrs: seq<byte>, end: nat) returns (a: WireAttr)
    requires |attrs| >= 4
    requires end == 4 + PaddedLen(FromBeBytes(attrs[2], attrs[3])) <= |attrs|
    ensures a.typ == FromBeBytes(attrs[0], attrs[1])
    ensures attrs == EncodeAttr(a) + attrs[end..]
  {
    a := CutAttr(attrs, end);
  }

  lemma CutAttr(attrs: seq<byte>, end: nat) returns (a: WireAttr)
    requires |attrs| >= 4 && end <= |attrs| && end % 4 == 0
    requires 4 + FromBeBytes(attrs[2], attrs[3]) <= end < 8 + FromBeBytes(attrs[2], attrs[3])
    ensures a.typ == FromBeBytes(attrs[0], attrs[1])
    ensures attrs == EncodeAttr(a) + attrs[end..]
  {
    var typ, len := FromBeBytes(attrs[0], attrs[1]), FromBeBytes(attrs[2], attrs[3]);
    var value, padding, tail := attrs[4..4 + len], attrs[4 + len..end], attrs[end..];
    HeaderIsAttrHeader(attrs);
    assert attrs[4..] == value + padding + tail;
    a := MakeAttr(typ, value, padding);
    assert AttrHeader(typ, len) + (value + padding + tail) == EncodeAttr(a) + tail;
  }

  function MakeAttr(typ: u16, value: seq<byte>, padding: seq<byte>): WireAttr
    requires |value| < 0x1_0000 && |padding| < 4 && (4 + |value| + |padding|) % 4 == 0
  {
    Attr(typ, value, padding)
  }

  lemma EncodeCons(a: WireAttr, more: seq<WireAttr>)
    ensures EncodeAttrs([a] + more) == EncodeAttr(a) + EncodeAttrs(more)
  {
    assert ([a] + more)[1..] == more;
  }

  lemma UsernameAtHead(attrs: seq<byte>) returns (rest: seq<byte>)
    requires ScanAttrs(attrs).FoundUsername? && FromBeBytes(attrs[0], attrs[1]) == ATTR_USERNAME
    ensures |ScanAttrs(attrs).value| < 0x1_0000
    ensures attrs == UsernameThen(ScanAttrs(attrs).value, rest)
  {
    var len := FromBeBytes(attrs[2], attrs[3]);
    rest := attrs[4 + len..];
    HeaderIsAttrHeader(attrs);
    assert attrs[4..] == attrs[4..4 + len] + rest;
  }

  lemma {:induction false} FoundUsernameHasRun(attrs: seq<byte>)
    returns (before: seq<WireAttr>, rest: seq<byte>)
    requires ScanAttrs(attrs).FoundUsername?
    ensures |ScanAttrs(attrs).value| < 0x1_0000
    ensures forall a <- before :: a.typ != ATTR_USERNAME
    ensures attrs == EncodeAttrs(before) + UsernameThen(ScanAttrs(attrs).value, rest)
    decreases |attrs|
  {
    if FromBeBytes(attrs[0], attrs[1]) == ATTR_USERNAME {
      before := [];
      rest := UsernameAtHead(attrs);
    } else {
      var end := 4 + PaddedLen(FromBeBytes(attrs[2], attrs[3]));
      var a := SteppedOverIsAttr(attrs, end);
      var more;
      more, rest := FoundUsernameHasRun(attrs[end..]);
      before := [a] + more;
      EncodeCons(a, more);
    }
  }

  lemma EncodedHeaderIsOk(transactionId: seq<byte>, body: seq<byte>)
    requires |transactionId| == 12 && |body| < 0x1_0000 && |body| % 4 == 0
    ensures var p := Header(|body|, transactionId) + body;
      HeaderOk(p) && p[HEADER_LEN..] == body
  {
    var p := Header(|body|, transactionId) + body;
    BeRoundTrip(|body|);
    assert p[..4] == ToBeBytes(BINDING_REQUEST) + ToBeBytes(|body|);
    assert p[4..8] == MAGIC_COOKIE;
  }

  lemma HeaderOkIsHeader(packet: seq<byte>)
    requires HeaderOk(packet)
    ensures |packet| % 4 == 0 && |packet| < HEADER_LEN + 0x1_0000
    ensures packet == Header(|packet| - HEADER_LEN, packet[8..20]) + packet[HEADER_LEN..]
  {
    assert packet[0..2] == ToBeBytes(BINDING_REQUEST);
    assert packet[2..4] == ToBeBytes(|packet| - HEADER_LEN);
    assert packet == packet[0..2] + packet[2..4] + packet[4..8] + packet[8..20] + packet[20..];
  }

  lemma ParsedIsRequest(packet: seq<byte>, u: seq<byte>)
    requires UfragIn(packet) == Some(u)
    ensures IsRequestFor(packet, u)
  {
    var name := ScanAttrs(packet[HEADER_LEN..]).value;
    HeaderOkIsHeader(packet);
    var before, rest := FoundUsernameHasRun(packet[HEADER_LEN..]);
    assert IsRequestWith(packet, packet[8..20], before, name, rest) && IsLocalPart(u, name);
  }

  lemma RequestHasBody(packet: seq<byte>, transactionId: seq<byte>, body: seq<byte>)
    requires HEADER_LEN <= |packet| < HEADER_LEN + 0x1_0000 && |packet| % 4 == 0 && |transactionId| == 12
    requires packet == Header(|packet| - HEADER_LEN, transactionId) + body
    ensures HeaderOk(packet) && packet[HEADER_LEN..] == body
  {
    EncodedHeaderIsOk(transactionId, body);
  }

  lemma UsernameBehindRunIsFound(before: seq<WireAttr>, name: seq<byte>, rest: seq<byte>)
    requires |name| < 0x1_0000 && forall a <- before :: a.typ != ATTR_USERNAME
    ensures ScanAttrs(EncodeAttrs(before) + UsernameThen(name, rest)) == FoundUsername(name)
  {
    ScanSkips(before, UsernameThen(name, rest));
    UsernameIsFound(name, rest);
  }

  lemma RequestIsParsed(packet: seq<byte>, transactionId: seq<byte>, before: seq<WireAttr>,
                        name: seq<byte>, rest: seq<byte>)
    requires IsRequestWith(packet, transactionId, before, name, rest)
    ensures UfragIn(packet) == UfragOf(name)
  {
    RequestHasBody(packet, transactionId, EncodeAttrs(before) + UsernameThen(name, rest));
    UsernameBehindRunIsFound(before, name, rest);
  }

  /** The parser accepts exactly the packets of the grammar, and reads exactly their ufrag. */
  lemma ParserMeetsGrammar(packet: seq<byte>, u: seq<byte>)
    ensures UfragIn(packet) == Some(u) <==> IsRequestFor(packet, u)
  {
    if UfragIn(packet) == Some(u) {
      ParsedIsRequest(packet, u);
    }
    if IsRequestFor(packet, u) {
      var transactionId, before, name, rest :|
        IsRequestWith(packet, transactionId, before, name, rest) && IsLocalPart(u, name);
      RequestIsParsed(packet, transactionId, before, name, rest);
      LocalPartIsBeforeColon(u, name);
    }
  }

  // ------------------------------------------------------------------ consequences

  lemma PaddingFits(len: u16, total: nat)
    requires total % 4 == 0 && ATTR_HEADER_LEN + len <= total
    ensures ATTR_HEADER_LEN + PaddedLen(len) <= total
    ensures (total - (ATTR_HEADER_LEN + PaddedLen(len))) % 4 == 0
  {
  }

  /**
    An aligned attribute section stays aligned: the padding of a value that fits always fits, and
    running out of attributes leaves no byte behind.
   */
  lemma {:induction false} AlignedScanEnds(attrs: seq<byte>)
    requires |attrs| % 4 == 0
    ensures !ScanAttrs(attrs).PaddingOverrun?
    ensures ScanAttrs(attrs).Exhausted? ==> ScanAttrs(attrs).left == 0
    decreases |attrs|
  {
    if |attrs| >= ATTR_HEADER_LEN {
      var attrLen := FromBeBytes(attrs[2], attrs[3]);
      if ATTR_HEADER_LEN + attrLen <= |attrs| {
        PaddingFits(attrLen, |attrs|);
        AlignedScanEnds(attrs[ATTR_HEADER_LEN + PaddedLen(attrLen)..]);
      }
    }
  }

  lemma SumOfMultiples(x: nat, y: nat)
    requires x % 4 == 0 && y % 4 == 0
    ensures (x + y) % 4 == 0
  {
  }

  lemma {:induction false} EncodingIsAligned(attrs: seq<WireAttr>)
    ensures |EncodeAttrs(attrs)| % 4 == 0
  {
    if attrs != [] {
      EncodingIsAligned(attrs[1..]);
      SumOfMultiples(4, |attrs[0].value| + |attrs[0].padding|);
      SumOfMultiples(|EncodeAttr(attrs[0])|, |EncodeAttrs(attrs[1..])|);
    }
  }

  lemma {:induction false} ScanOfEncoding(attrs: seq<WireAttr>)
    ensures ScanAttrs(EncodeAttrs(attrs))
         == match FirstUsername(attrs) case Some(v) => FoundUsername(v) case None => Exhausted(0)
  {
    if attrs != [] {
      var a, tail := attrs[0], EncodeAttrs(attrs[1..]);
      if a.typ == ATTR_USERNAME {
        assert EncodeAttr(a) + tail == UsernameThen(a.value, a.padding + tail);
        UsernameIsFound(a.value, a.padding + tail);
      } else {
        ScanStepsOver(a, tail);
        ScanOfEncoding(attrs[1..]);
      }
    }
  }

  /** Parsing an encoded request yields the ufrag of its first USERNAME, and nothing else. */
  lemma RoundTrip(transactionId: seq<byte>, attrs: seq<WireAttr>)
    requires |transactionId| == 12 && |EncodeAttrs(attrs)| < 0x1_0000
    ensures UfragIn(EncodeRequest(transactionId, attrs))
         == match FirstUsername(attrs) case Some(v) => UfragOf(v) case None => None
  {
    var body := EncodeAttrs(attrs);
    EncodingIsAligned(attrs);
    EncodedHeaderIsOk(transactionId, body);
    ScanOfEncoding(attrs);
  }

  /** Splitting a valid username at its first colon never breaks a UTF-8 character. */
  lemma SplitKeepsUtf8(name: seq<byte>)
    requires Utf8.Valid(name)
    ensures Utf8.Valid(BeforeColon(name))
    ensures name != [] && name[0] != COLON ==> UfragOf(name) == Some(BeforeColon(name))
  {
    var u := BeforeColon(name);
    if |u| < |name| {
      Utf8.CutBeforeAscii(name, |u|);
      assert u == name[..|u|];
    } else {
      assert u == name;
    }
  }

  /** A request whose first username is valid UTF-8 with a local part is never rejected. */
  lemma ValidUsernameIsRouted(transactionId: seq<byte>, attrs: seq<WireAttr>)
    requires |transactionId| == 12 && |EncodeAttrs(attrs)| < 0x1_0000
    requires FirstUsername(attrs).Some? && Utf8.Valid(FirstUsername(attrs).value)
    requires FirstUsername(attrs).value != [] && FirstUsername(attrs).value[0] != COLON
    ensures UfragIn(EncodeRequest(transactionId, attrs)) == Some(BeforeColon(FirstUsername(attrs).value))
  {
    RoundTrip(transactionId, attrs);
    SplitKeepsUtf8(FirstUsername(attrs).value);
  }

  /**
    The `local:remote` username of section 7.2.2 of RFC 8445: whatever the remote half and the
    other attributes are, the request is routed by its local half.
   */
  lemma ConnectivityCheckIsRoutedByLocalHalf(transactionId: seq<byte>, before: seq<WireAttr>,
                                             local: seq<byte>, remote: seq<byte>,
                                             padding: seq<byte>, after: seq<WireAttr>)
    requires |transactionId| == 12
    requires local != [] && COLON !in local && Utf8.Valid(local)
    requires Attr(ATTR_USERNAME, local + [COLON] + remote, padding).WellFormed()
    requires forall a <- before :: a.typ != ATTR_USERNAME
    requires
      var name: WireAttr := Attr(ATTR_USERNAME, local + [COLON] + remote, padding);
      |EncodeAttrs(before + [name] + after)| < 0x1_0000
    ensures
      var name: WireAttr := Attr(ATTR_USERNAME, local + [COLON] + remote, padding);
      UfragIn(EncodeRequest(transactionId, before + [name] + after)) == Some(local)
  {
    var name: WireAttr := Attr(ATTR_USERNAME, local + [COLON] + remote, padding);
    RoundTrip(transactionId, before + [name] + after);
    FirstUsernameAfter(before, name, after);
    LocalPartIsBeforeColon(local, name.value);
  }

  lemma {:induction false} FirstUsernameAfter(before: seq<WireAttr>, name: WireAttr, after: seq<WireAttr>)
    requires name.typ == ATTR_USERNAME
    requires forall a <- before :: a.typ != ATTR_USERNAME
    ensures FirstUsername(before + [name] + after) == Some(name.value)
  {
    if before == [] {
      assert before + [name] + after == [name] + after;
    } else {
      assert (before + [name] + after)[1..] == before[1..] + [name] + after;
      FirstUsernameAfter(before[1..], name, after);
    }
  }

  ghost predicate SameLocalPart(name: seq<byte>, other: seq<byte>) {
    forall u :: IsLocalPart(u, name) <==> IsLocalPart(u, other)
  }

  lemma SameLocalPartSameUfrag(name: seq<byte>, other: seq<byte>)
    requires SameLocalPart(name, other)
    ensures UfragOf(name) == UfragOf(other)
  {
    assert IsLocalPart(BeforeColon(name), name);
    LocalPartIsBeforeColon(BeforeColon(name), other);
  }

  /**
    Of a request nothing but the local part of its first USERNAME matters: neither transaction id nor
    the attributes in front, neither the remote half nor what follows, of whatever content and length.
   */
  lemma OnlyTheLocalPartMatters(
    p: seq<byte>, idP: seq<byte>, beforeP: seq<WireAttr>, nameP: seq<byte>, restP: seq<byte>,
    q: seq<byte>, idQ: seq<byte>, beforeQ: seq<WireAttr>, nameQ: seq<byte>, restQ: seq<byte>)
    requires IsRequestWith(p, idP, beforeP, nameP, restP)
    requires IsRequestWith(q, idQ, beforeQ, nameQ, restQ)
    requires SameLocalPart(nameP, nameQ)
    ensures UfragIn(p) == UfragIn(q)
  {
    RequestIsParsed(p, idP, beforeP, nameP, restP);
    RequestIsParsed(q, idQ, beforeQ, nameQ, restQ);
    SameLocalPartSameUfrag(nameP, nameQ);
  }

  /** The value of the attribute at the head fits in front of the end. */
  predicate ValueFits(attrs: seq<byte>) {
    |attrs| >= ATTR_HEADER_LEN && ATTR_HEADER_LEN + FromBeBytes(attrs[2], attrs[3]) <= |attrs|
  }

  function HeadValue(attrs: seq<byte>): seq<byte>
    requires ValueFits(attrs)
  {
    attrs[4..4 + FromBeBytes(attrs[2], attrs[3])]
  }

  /**
    The two attribute sections agree on everything that may decide: the attribute headers up to the
    first USERNAME, whether each value and its padding fit, and the local part of that USERNAME. Its
    length may differ, and so may all that follows.
   */
  ghost predicate SameDecidingBytes(a: seq<byte>, b: seq<byte>)
    decreases |a|
  {
    && (|a| >= ATTR_HEADER_LEN <==> |b| >= ATTR_HEADER_LEN)
    && (|a| >= ATTR_HEADER_LEN ==>
          && a[..2] == b[..2]
          && (ValueFits(a) <==> ValueFits(b))
          && (ValueFits(a) ==>
                if a[..2] == ToBeBytes(ATTR_USERNAME) then
                  SameLocalPart(HeadValue(a), HeadValue(b))
                else
                  && a[2..4] == b[2..4]
                  && var end := 4 + PaddedLen(FromBeBytes(a[2], a[3]));
                  && (end <= |a| <==> end <= |b|)
                  && (end <= |a| ==> SameDecidingBytes(a[end..], b[end..]))))
  }

  /**
    Transaction id, padding, values in front of the first USERNAME, the remote half and everything
    behind that USERNAME never influence the result, for well-formed and malformed packets alike.
   */
  lemma NonInterference(p: seq<byte>, q: seq<byte>)
    requires HeaderOk(p) <==> HeaderOk(q)
    requires HeaderOk(p) ==> SameDecidingBytes(p[HEADER_LEN..], q[HEADER_LEN..])
    ensures UfragIn(p) == UfragIn(q)
  {
    if HeaderOk(p) {
      ScansAgree(p[HEADER_LEN..], q[HEADER_LEN..]);
    }
  }

  /** For packets of one length the first eight bytes settle the header. */
  lemma HeadersAgree(p: seq<byte>, q: seq<byte>)
    requires |p| == |q| && |p| >= HEADER_LEN && p[..8] == q[..8]
    ensures HeaderOk(p) == HeaderOk(q)
  {
    assert forall i | 0 <= i < 4 :: p[i] == p[..8][i] && q[i] == q[..8][i];
    assert p[4..8] == p[..8][4..] && q[4..8] == q[..8][4..];
  }

  lemma {:induction false} ScansAgree(a: seq<byte>, b: seq<byte>)
    requires SameDecidingBytes(a, b)
    ensures ScanAttrs(a).FoundUsername? <==> ScanAttrs(b).FoundUsername?
    ensures ScanAttrs(a).FoundUsername? ==> UfragOf(ScanAttrs(a).value) == UfragOf(ScanAttrs(b).value)
    decreases |a|
  {
    if ValueFits(a) {
      TypeBytes(a, b);
      if FromBeBytes(a[0], a[1]) == ATTR_USERNAME {
        SameLocalPartSameUfrag(HeadValue(a), HeadValue(b));
      } else {
        assert a[2] == a[2..4][0] && a[3] == a[2..4][1] && b[2] == b[2..4][0] && b[3] == b[2..4][1];
        var end := 4 + PaddedLen(FromBeBytes(a[2], a[3]));
        if end <= |a| {
          ScansAgree(a[end..], b[end..]);
        }
      }
    }
  }

  lemma TypeBytes(a: seq<byte>, b: seq<byte>)
    requires |a| >= 2 && |b| >= 2 && a[..2] == b[..2]
    ensures FromBeBytes(a[0], a[1]) == FromBeBytes(b[0], b[1])
    ensures FromBeBytes(a[0], a[1]) == ATTR_USERNAME <==> a[..2] == ToBeBytes(ATTR_USERNAME)
  {
    assert a[0] == a[..2][0] && a[1] == a[..2][1] && b[0] == b[..2][0] && b[1] == b[..2][1];
    BeRoundTrip(ATTR_USERNAME);
  }

  /** The username `myUfrag:remote`, octet by octet. */
  const SAMPLE_LOCAL: seq<byte> := [0x6D, 0x79, 0x55, 0x66, 0x72, 0x61, 0x67]
  const SAMPLE_REST: seq<byte> := [0x3A, 0x72, 0x65, 0x6D, 0x6F, 0x74, 0x65]

  /** A whole request on the wire for that username, with its padding and any transaction id. */
  function RequestOnTheWire(transactionId: seq<byte>): seq<byte> {
    [0x00, 0x01, 0x00, 0x14, 0x21, 0x12, 0xA4, 0x42] + transactionId
    + ([0x00, 0x06, 0x00, 0x0E] + (SAMPLE_LOCAL + SAMPLE_REST) + [0x00, 0x00])
  }

  lemma SampleIsRead()
    ensures UfragOf(SAMPLE_LOCAL + SAMPLE_REST) == Some(SAMPLE_LOCAL)
  {
    var name := SAMPLE_LOCAL + SAMPLE_REST;
    assert name[7] == SAMPLE_REST[0] == COLON;
    assert IsLocalPart(SAMPLE_LOCAL, name);
    LocalPartIsBeforeColon(SAMPLE_LOCAL, name);
    Utf8.AsciiIsValid(SAMPLE_LOCAL);
  }

  lemma HeaderOnTheWire(transactionId: seq<byte>, body: seq<byte>)
    requires |transactionId| == 12 && |body| == 20
    ensures var p := [0x00, 0x01, 0x00, 0x14, 0x21, 0x12, 0xA4, 0x42] + transactionId + body;
      HeaderOk(p) && p[HEADER_LEN..] == body
  {
    var p := [0x00, 0x01, 0x00, 0x14, 0x21, 0x12, 0xA4, 0x42] + transactionId + body;
    assert p[4..8] == MAGIC_COOKIE;
  }

  lemma UsernameOnTheWire(name: seq<byte>, rest: seq<byte>)
    requires |name| == 14
    ensures ScanAttrs([0x00, 0x06, 0x00, 0x0E] + name + rest) == FoundUsername(name)
  {
    var attrs := [0x00, 0x06, 0x00, 0x0E] + name + rest;
    assert attrs[4..18] == name;
  }

  /** It is read as `myUfrag`: fields are big-endian, and types, cookie and separator are the right ones. */
  lemma RequestOnTheWireIsRead(transactionId: seq<byte>)
    requires |transactionId| == 12
    ensures UfragIn(RequestOnTheWire(transactionId)) == Some(SAMPLE_LOCAL)
  {
    var name := SAMPLE_LOCAL + SAMPLE_REST;
    HeaderOnTheWire(transactionId, [0x00, 0x06, 0x00, 0x0E] + name + [0x00, 0x00]);
    UsernameOnTheWire(name, [0x00, 0x00]);
    SampleIsRead();
  }
}
