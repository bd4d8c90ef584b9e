/**
 Session tokens (auth_token.c): generate_auth_token issues and renews them, verify_auth_token checks
 them. The HMAC is any function to 32 bytes; strings are their bytes without the NUL.
 */
module AuthToken {
  import opened Bytes
  import Base64

  type Mac = f: seq<byte> -> seq<byte> | forall m :: |f(m)| == 32 witness ZeroMac

  function ZeroMac(m: seq<byte>): (h: seq<byte>)
    ensures |h| == 32
  {
    seq(32, _ => 0)
  }

  const SESSION_ID_LEN: nat := 12
  const TOKEN_DATA_LEN: nat := 60
  const USER_PASS_LEN: nat := 131072
  const U64: nat := 0x1_0000_0000_0000_0000

  /** SESSION_ID_PREFIX, "SESS_ID_AT_". */
  const PREFIX: seq<byte> := [83, 69, 83, 83, 95, 73, 68, 95, 65, 84, 95]

  /** "SESSION: token expired". */
  const TOKEN_EXPIRED: seq<byte> := [83, 69, 83, 83, 73, 79, 78, 58, 32, 116, 111, 107, 101, 110, 32, 101, 120, 112,
                                     105, 114, 101, 100]

  /** The state word: AUTH_TOKEN_HMAC_OK, AUTH_TOKEN_EXPIRED, AUTH_TOKEN_VALID_EMPTYUSER. */
  datatype Flags = Flags(hmacOk: bool, expired: bool, emptyUser: bool)

  const REJECTED: Flags := Flags(false, false, false)

  // ----- timestamps -----

  function Stamp(now: nat): (b: seq<byte>)
    ensures |b| == 8
  {
    BigEndian(now, 8)
  }

  lemma StampInverts(now: nat)
    requires now < U64
    ensures FromBigEndian(Stamp(now)) == now
  {
    assert Power256(1) == 0x100 && Power256(2) == 0x1_0000 && Power256(3) == 0x100_0000;
    assert Power256(4) == 0x1_0000_0000 && Power256(5) == 0x100_0000_0000;
    assert Power256(6) == 0x1_0000_0000_0000 && Power256(7) == 0x100_0000_0000_0000;
    assert Power256(8) == U64;
    BigEndianInverts(now, 8);
  }

  // ----- the text of a token -----

  /** Session id, initial timestamp, timestamp, and the HMAC over the user name and these. */
  function Sealed(mac: Mac, user: seq<byte>, session: seq<byte>, initial: seq<byte>, now: nat): (data: seq<byte>)
    requires |session| == SESSION_ID_LEN && |initial| == 8
    ensures |data| == TOKEN_DATA_LEN
  {
    session + initial + Stamp(now) + mac(user + (session + initial + Stamp(now)))
  }

  function Text(data: seq<byte>): seq<byte> {
    PREFIX + Base64.Encode(data)
  }

  /** What verify_auth_token decodes of a password. */
  function Opened(password: seq<byte>): Option<seq<byte>>
    requires |password| >= |PREFIX|
  {
    Base64.Decode(password[|PREFIX|..], USER_PASS_LEN)
  }

  function SessionText(token: seq<byte>): seq<byte>
    requires |token| >= 39
  {
    token[11..27]
  }

  function InitialText(token: seq<byte>): seq<byte>
    requires |token| >= 39
  {
    token[27..39]
  }

  /** The two assertions of generate_auth_token about the token it replaces. */
  predicate Renewable(token: seq<byte>) {
    && |token| >= 39
    && var t := Base64.Decode(InitialText(token), 9);
    && t.Some? && |t.value| == 9
    && var i := Base64.Decode(SessionText(token), SESSION_ID_LEN);
    && i.Some? && |i.value| == SESSION_ID_LEN
  }

  function OldSession(token: seq<byte>): (session: seq<byte>)
    requires Renewable(token)
    ensures |session| == SESSION_ID_LEN
  {
    Base64.Decode(SessionText(token), SESSION_ID_LEN).value
  }

  function OldInitial(token: seq<byte>): (initial: seq<byte>)
    requires Renewable(token)
    ensures |initial| == 8
  {
    Base64.Decode(InitialText(token), 9).value[..8]
  }

  /** Base64 groups of 12, 9 and 39 bytes: each part of the text decodes by itself. */
  lemma TextSplits(a: seq<byte>, b: seq<byte>, c: seq<byte>)
    requires |a| == 12 && |b| == 9
    ensures var text := Text(a + b + c);
            && |text| >= 39
            && SessionText(text) == Base64.Encode(a) && InitialText(text) == Base64.Encode(b)
            && text[11..] == Base64.Encode(a + b + c)
  {
    hide Base64.Quad, Base64.EncodeFrom;
    var text := Text(a + b + c);
    assert a + b + c == a + (b + c);
    Base64.EncodeSplits(a, b + c, 0);
    Base64.EncodeSplits(b, c, 0);
    Base64.EncodedLength(a);
    Base64.EncodedLength(b);
    var ea, eb, ec := Base64.Encode(a), Base64.Encode(b), Base64.Encode(c);
    assert text == PREFIX + ea + eb + ec;
    assert text[11..27] == ea;
    assert text[27..39] == eb;
  }

  /** A token that was issued reads back: as a whole, and its parts when it is renewed. */
  lemma ReadsBack(mac: Mac, user: seq<byte>, session: seq<byte>, initial: seq<byte>, now: nat)
    requires |session| == SESSION_ID_LEN && |initial| == 8
    ensures var data := Sealed(mac, user, session, initial, now);
            && |Text(data)| >= |PREFIX| && Opened(Text(data)) == Some(data)
            && Renewable(Text(data)) && OldSession(Text(data)) == session && OldInitial(Text(data)) == initial
  {
    hide Base64.Encode, Base64.Decode, SessionText, InitialText, Text;
    var data := Sealed(mac, user, session, initial, now);
    var stamp := Stamp(now);
    var nine := initial + stamp[..1];
    var rest := stamp[1..] + mac(user + (session + initial + stamp));
    assert data == session + nine + rest;
    TextSplits(session, nine, rest);
    Base64.RoundTrip(data, USER_PASS_LEN);
    Base64.RoundTrip(session, SESSION_ID_LEN);
    Base64.RoundTrip(nine, 9);
    assert nine[..8] == initial;
  }

  /** A password that can be renewed and opens to a whole token opens to the parts that are renewed. */
  lemma AdoptedReadsBack(password: seq<byte>)
    requires Renewable(password) && Opened(password).Some?
    ensures var data := Opened(password).value;
            |data| >= 20 && OldSession(password) == data[..12] && OldInitial(password) == data[12..20]
  {
    hide Base64.DecodeFrom;
    var s := password[11..];
    var a, b := SessionText(password), InitialText(password);
    var none: seq<byte> := [];
    assert a == s[0..16] && b == s[16..28];
    var id, nine := OldSession(password), Base64.Decode(b, 9).value;
    Base64.DecodeSlice(s, 0, a, 0, SESSION_ID_LEN, none, USER_PASS_LEN, none);
    assert none + id[0..] == id;
    Base64.DecodeSlice(s, 16, b, 0, 9, none, USER_PASS_LEN, id);
    assert nine[0..] == nine;
    Base64.DecodeGrows(s, 28, USER_PASS_LEN, id + nine);
    var data := Opened(password).value;
    assert data[..21] == id + nine;
    assert data[..12] == data[..21][..12];
    assert data[12..20] == data[..21][12..20];
  }

  // ----- issuing and renewing -----

  /** What generate_auth_token leaves: the old session id and initial timestamp, when there is an old token. */
  function Renewed(mac: Mac, user: seq<byte>, prior: Option<seq<byte>>, random: seq<byte>, now: nat): seq<byte>
    requires |random| == SESSION_ID_LEN && (prior.Some? ==> Renewable(prior.value))
  {
    Text(if prior.Some? then Sealed(mac, user, OldSession(prior.value), OldInitial(prior.value), now)
         else Sealed(mac, user, random, Stamp(now), now))
  }

  /** One call: the user it is for, the clock, and the bytes the random generator would give. */
  datatype Step = Step(user: seq<byte>, now: nat, random: seq<byte>)

  predicate Steps(steps: seq<Step>) {
    forall k :: 0 <= k < |steps| ==> |steps[k].random| == SESSION_ID_LEN && steps[k].now < U64
  }

  /** The token after a run of calls. */
  function Run(mac: Mac, prior: Option<seq<byte>>, steps: seq<Step>): (token: Option<seq<byte>>)
    requires Steps(steps) && (prior.Some? ==> Renewable(prior.value))
    ensures token.Some? ==> Renewable(token.value)
  {
    if steps == [] then prior
    else
      var last := steps[|steps| - 1];
      var before := Run(mac, prior, steps[..|steps| - 1]);
      var token := Renewed(mac, last.user, before, last.random, last.now);
      RenewedIsRenewable(mac, last.user, before, last.random, last.now);
      Some(token)
  }

  lemma RenewedIsRenewable(mac: Mac, user: seq<byte>, prior: Option<seq<byte>>, random: seq<byte>, now: nat)
    requires |random| == SESSION_ID_LEN && (prior.Some? ==> Renewable(prior.value))
    ensures Renewable(Renewed(mac, user, prior, random, now))
  {
    hide Sealed, Text, Renewable;
    if prior.Some? { ReadsBack(mac, user, OldSession(prior.value), OldInitial(prior.value), now); }
    else { ReadsBack(mac, user, random, Stamp(now), now); }
  }

  /**
   Along any run the session id and the initial timestamp stay those of the token at its start, or of
   the first call when there was none; only the timestamp, the user and the HMAC follow the last call.
   */
  lemma {:induction false} RunKeepsSession(mac: Mac, prior: Option<seq<byte>>, steps: seq<Step>)
    requires Steps(steps) && steps != [] && (prior.Some? ==> Renewable(prior.value))
    ensures var session := if prior.Some? then OldSession(prior.value) else steps[0].random;
            var initial := if prior.Some? then OldInitial(prior.value) else Stamp(steps[0].now);
            var last := steps[|steps| - 1];
            Run(mac, prior, steps) == Some(Text(Sealed(mac, last.user, session, initial, last.now)))
  {
    hide Sealed, Text, Renewable, OldSession, OldInitial;
    var before := steps[..|steps| - 1];
    if before != [] {
      RunKeepsSession(mac, prior, before);
      var session := if prior.Some? then OldSession(prior.value) else steps[0].random;
      var initial := if prior.Some? then OldInitial(prior.value) else Stamp(steps[0].now);
      var last := before[|before| - 1];
      ReadsBack(mac, last.user, session, initial, last.now);
    }
  }

  // ----- checking -----

  /** The initial token is compared as a prefix of the password. */
  predicate IsInitial(password: seq<byte>, initial: Option<seq<byte>>) {
    initial.Some? && initial.value <= password
  }

  /** The largest interval whose double is an `int`. */
  const MAX_INTERVAL: int := 0x3FFF_FFFF

  /** `2 * renegotiate_seconds` in 32 bits, two's complement. */
  function Doubled(renegotiate: int): int {
    (2 * renegotiate + 0x8000_0000) % 0x1_0000_0000 - 0x8000_0000
  }

  lemma DoubledExactly(renegotiate: int)
    requires -0x8000_0000 <= renegotiate < 0x8000_0000
    ensures Doubled(renegotiate) == 2 * renegotiate <==> -MAX_INTERVAL - 1 <= renegotiate <= MAX_INTERVAL
    ensures renegotiate > MAX_INTERVAL ==> Doubled(renegotiate) == 2 * renegotiate - 0x1_0000_0000 < 0
  {
  }

  /** `now >= timestamp && now < timestamp + 2 * renegotiate_seconds`, the sum in 64 bits. */
  predicate InRenegotiation(now: nat, stamp: nat, renegotiate: int) {
    now >= stamp && now < (stamp + Doubled(renegotiate)) % U64
  }

  /** `lifetime && now > timestamp_initial + lifetime`, in 64-bit arithmetic. */
  predicate PastLifetime(now: nat, initial: nat, lifetime: nat) {
    lifetime != 0 && now > (initial + lifetime) % U64
  }

  /** The wrap-around changes the answer only for a timestamp within two intervals of the end of time. */
  lemma RenegotiationWraps(now: nat, stamp: nat, renegotiate: int)
    requires now < U64 && stamp < U64 && Doubled(renegotiate) >= 0
    ensures (InRenegotiation(now, stamp, renegotiate) == (stamp <= now < stamp + Doubled(renegotiate)))
       <==> (stamp + Doubled(renegotiate) < U64 || now < stamp)
  {
  }

  /** When the double is negative the window is empty, or for a stamp that is small enough without end. */
  lemma NegativeInterval(now: nat, stamp: nat, renegotiate: int)
    requires now < U64 && stamp < U64 && Doubled(renegotiate) < 0
    ensures InRenegotiation(now, stamp, renegotiate) <==>
            stamp + Doubled(renegotiate) < 0 && stamp <= now < stamp + Doubled(renegotiate) + U64
  {
  }

  lemma LifetimeWraps(now: nat, initial: nat, lifetime: nat)
    requires now < U64 && initial < U64 && lifetime < U64
    ensures (PastLifetime(now, initial, lifetime) == (lifetime != 0 && now > initial + lifetime))
       <==> (initial + lifetime < U64 || now <= initial + lifetime - U64)
  {
  }

  /** The HMAC at the end of a token is the one for this user name. */
  predicate Authentic(mac: Mac, user: seq<byte>, data: seq<byte>)
    requires |data| == TOKEN_DATA_LEN
  {
    mac(user + data[..28]) == data[28..]
  }

  predicate Expired(now: nat, stamp: nat, stamp0: nat, initial: bool, renegotiate: int, lifetime: nat) {
    (!InRenegotiation(now, stamp, renegotiate) && !initial) || stamp < stamp0 || PastLifetime(now, stamp0, lifetime)
  }

  /** The answer of verify_auth_token for opened data. */
  function Checked(mac: Mac, user: seq<byte>, data: seq<byte>, initial: bool, now: nat,
                   renegotiate: int, lifetime: nat): Flags
    requires |data| == TOKEN_DATA_LEN
  {
    var stamp, stamp0 := FromBigEndian(data[20..28]), FromBigEndian(data[12..20]);
    var own, empty := Authentic(mac, user, data), Authentic(mac, [], data);
    if !own && !empty then REJECTED
    else Flags(true, Expired(now, stamp, stamp0, initial, renegotiate, lifetime), !own)
  }

  lemma SealedParts(mac: Mac, user: seq<byte>, session: seq<byte>, initial: seq<byte>, now: nat)
    requires |session| == SESSION_ID_LEN && |initial| == 8
    ensures var data := Sealed(mac, user, session, initial, now);
            && data[12..20] == initial && data[20..28] == Stamp(now)
            && data[..28] == session + initial + Stamp(now)
            && var body := session + initial + Stamp(now);
            && (forall other :: Authentic(mac, other, data) <==> mac(user + body) == mac(other + body))
  {
    var data := Sealed(mac, user, session, initial, now);
    assert data[..28] == session + initial + Stamp(now);
  }

  /**
   An issued token is accepted for its user, as the user's own, and it is expired exactly when the
   clock is outside [stamp, stamp + 2 * renegotiate) and it is not the initial token, when it is older
   than its session, or when the session is past a lifetime other than zero.
   */
  lemma IssuedVerifies(mac: Mac, user: seq<byte>, session: seq<byte>, stamp0: nat, stamp: nat, initial: bool,
                       now: nat, renegotiate: nat, lifetime: nat)
    requires |session| == SESSION_ID_LEN && now < U64 && renegotiate <= MAX_INTERVAL
    requires stamp + 2 * renegotiate < U64 && stamp0 + lifetime < U64
    ensures Checked(mac, user, Sealed(mac, user, session, Stamp(stamp0), stamp), initial, now, renegotiate, lifetime)
         == Flags(true,
                  (!(stamp <= now < stamp + 2 * renegotiate) && !initial) || stamp < stamp0
                  || (lifetime != 0 && now > stamp0 + lifetime),
                  false)
  {
    hide Sealed, Stamp, FromBigEndian, Expired, Authentic;
    SealedParts(mac, user, session, Stamp(stamp0), stamp);
    StampInverts(stamp);
    StampInverts(stamp0);
    ExpiredWithoutWrap(now, stamp, stamp0, initial, renegotiate, lifetime);
  }

  lemma ExpiredWithoutWrap(now: nat, stamp: nat, stamp0: nat, initial: bool, renegotiate: nat, lifetime: nat)
    requires now < U64 && renegotiate <= MAX_INTERVAL && stamp + 2 * renegotiate < U64 && stamp0 + lifetime < U64
    ensures Expired(now, stamp, stamp0, initial, renegotiate, lifetime) <==>
            (!(stamp <= now < stamp + 2 * renegotiate) && !initial) || stamp < stamp0
            || (lifetime != 0 && now > stamp0 + lifetime)
  {
    hide InRenegotiation, PastLifetime, Doubled;
    DoubledExactly(renegotiate);
    RenegotiationWraps(now, stamp, renegotiate);
    LifetimeWraps(now, stamp0, lifetime);
  }

  /** A token never verifies for a user whose HMAC differs, unless it was issued for the empty name. */
  lemma OtherUserRejected(mac: Mac, user: seq<byte>, other: seq<byte>, session: seq<byte>, stamp0: seq<byte>,
                          stamp: nat, initial: bool, now: nat, renegotiate: int, lifetime: nat)
    requires |session| == SESSION_ID_LEN && |stamp0| == 8
    ensures var body := session + stamp0 + Stamp(stamp);
            var flags := Checked(mac, other, Sealed(mac, user, session, stamp0, stamp), initial, now, renegotiate,
                                 lifetime);
            && (flags == REJECTED <==> mac(user + body) != mac(other + body) && mac(user + body) != mac([] + body))
            && (flags.emptyUser <==> mac(user + body) != mac(other + body) && mac(user + body) == mac([] + body))
  {
    hide Authentic, Sealed, Stamp, FromBigEndian, Expired;
    SealedParts(mac, user, session, stamp0, stamp);
  }

  predicate Monotone(steps: seq<Step>) {
    forall j, k :: 0 <= j <= k < |steps| ==> steps[j].now <= steps[k].now
  }

  /**
   A session started by a run of renewals with a clock that does not go back: the last token is good
   for its user exactly in its window and until the lifetime counted from the first call is over, no
   matter how often it was renewed.
   */
  lemma RunExpires(mac: Mac, steps: seq<Step>, now: nat, renegotiate: nat, lifetime: nat)
    requires Steps(steps) && steps != [] && Monotone(steps) && now < U64 && renegotiate <= MAX_INTERVAL
    requires steps[|steps| - 1].now + 2 * renegotiate < U64 && steps[0].now + lifetime < U64
    ensures var token := Run(mac, None, steps);
            var last := steps[|steps| - 1];
            && token.Some? && |token.value| >= |PREFIX|
            && var data := Opened(token.value);
            && data.Some? && |data.value| == TOKEN_DATA_LEN
            && Checked(mac, last.user, data.value, false, now, renegotiate, lifetime)
               == Flags(true,
                        !(last.now <= now < last.now + 2 * renegotiate)
                        || (lifetime != 0 && now > steps[0].now + lifetime),
                        false)
  {
    hide Sealed, Text, Opened, Checked, Run, Renewable, OldSession, OldInitial, Stamp;
    var first, last := steps[0], steps[|steps| - 1];
    RunKeepsSession(mac, None, steps);
    ReadsBack(mac, last.user, first.random, Stamp(first.now), last.now);
    IssuedVerifies(mac, last.user, first.random, first.now, last.now, false, now, renegotiate, lifetime);
  }

  // ----- the code -----

  /** The part of generate_auth_token that takes the token it replaces apart. */
  method TakeOld(token: seq<byte>) returns (sessid: seq<byte>, initialTimestamp: seq<byte>)
    requires Renewable(token)
    ensures sessid == OldSession(token) && initialTimestamp == OldInitial(token)
  {
    hide Base64.Decode, SessionText, InitialText;
    var oldStamp := new byte[9](_ => 0);
    var n := Base64.DecodeText(InitialText(token), oldStamp, 9);
    assert n == 9;
    assert oldStamp[..9][..8] == oldStamp[..8];
    initialTimestamp := oldStamp[..8];
    var oldId := new byte[SESSION_ID_LEN](_ => 0);
    n := Base64.DecodeText(SessionText(token), oldId, SESSION_ID_LEN);
    assert n == SESSION_ID_LEN;
    sessid := oldId[..SESSION_ID_LEN];
  }

  /** check_hmac_token. */
  method CheckHmacToken(mac: Mac, data: seq<byte>, username: seq<byte>) returns (ok: bool)
    requires |data| == TOKEN_DATA_LEN
    ensures ok == Authentic(mac, username, data)
  {
    var output := mac(username + data[..TOKEN_DATA_LEN - 32]);
    ok := output == data[TOKEN_DATA_LEN - 32..];
  }

  /** The three tests at the end of verify_auth_token. */
  method CheckTimes(now: nat, timestamp: nat, timestampInitial: nat, initial: bool, renegotiate: int, lifetime: nat)
    returns (expired: bool)
    ensures expired == Expired(now, timestamp, timestampInitial, initial, renegotiate, lifetime)
  {
    expired := false;
    var inRenegotiation := now >= timestamp && now < (timestamp + Doubled(renegotiate)) % U64;
    if !inRenegotiation && !initial { expired := true; }
    if timestamp < timestampInitial { expired := true; }
    if lifetime != 0 && now > (timestampInitial + lifetime) % U64 { expired := true; }
  }

  /** The decoding in verify_auth_token: only data of the length of a token is looked at. */
  method Open(password: seq<byte>) returns (ok: bool, data: seq<byte>)
    requires |PREFIX| <= |password| < USER_PASS_LEN
    ensures ok <==> Opened(password).Some? && |Opened(password).value| == TOKEN_DATA_LEN
    ensures ok ==> data == Opened(password).value
  {
    hide Base64.Decode;
    var decoded := new byte[USER_PASS_LEN](_ => 0);
    var n := Base64.DecodeText(password[|PREFIX|..], decoded, USER_PASS_LEN);
    if n != TOKEN_DATA_LEN { return false, []; }
    return true, decoded[..TOKEN_DATA_LEN];
  }

  /** The parts of struct tls_multi and its options the tokens live in. */
  class Multi {
    const mac: Mac
    const lifetime: nat
    var authToken: Option<seq<byte>>
    var authTokenInitial: Option<seq<byte>>
    var state: Flags
    var clientReason: Option<seq<byte>>

    constructor (mac: Mac, lifetime: nat)
      ensures this.mac == mac && this.lifetime == lifetime
      ensures authToken == None && authTokenInitial == None && state == REJECTED
    {
      this.mac, this.lifetime := mac, lifetime;
      authToken, authTokenInitial, state, clientReason := None, None, REJECTED, None;
    }

    /** generate_auth_token. */
    method Generate(username: seq<byte>, now: nat, random: seq<byte>)
      requires |random| == SESSION_ID_LEN && (authToken.Some? ==> Renewable(authToken.value))
      modifies this`authToken
      ensures authToken == Some(Renewed(mac, if state.emptyUser then [] else username, old(authToken), random, now))
      ensures Renewable(authToken.value)
    {
      hide Base64.Encode, Renewable, OldSession, OldInitial, Stamp;
      ghost var user := if state.emptyUser then [] else username;
      RenewedIsRenewable(mac, user, authToken, random, now);
      var timestamp := Stamp(now);
      var sessid, initialTimestamp := random, timestamp;
      if authToken.Some? { sessid, initialTimestamp := TakeOld(authToken.value); }
      var body := sessid + initialTimestamp + timestamp;
      var hmac := if state.emptyUser then mac([] + body) else mac(username + body);
      assert hmac == mac(user + body);
      var b64, len := Base64.EncodeText(body + hmac);
      authToken := Some(PREFIX + b64[..len]);
    }

    /** verify_auth_token, with the user name it leaves in `up` and what the client is told. */
    method Verify(username: seq<byte>, password: seq<byte>, now: nat, renegotiate: int)
      returns (flags: Flags, username': seq<byte>)
      requires |PREFIX| <= |password| < USER_PASS_LEN
      modifies this`clientReason
      ensures var data := Opened(password);
              flags == if data.None? || |data.value| != TOKEN_DATA_LEN then REJECTED
                       else Checked(mac, username, data.value, IsInitial(password, authTokenInitial), now,
                                    renegotiate, lifetime)
      ensures username' == if flags.emptyUser then [] else username
      ensures clientReason == if flags.expired then Some(TOKEN_EXPIRED) else old(clientReason)
    {
      flags, username' := REJECTED, username;
      var whole, data := Open(password);
      if !whole { return; }
      hide Opened, FromBigEndian, Authentic, Expired, IsInitial;
      var timestamp, timestampInitial := FromBigEndian(data[20..28]), FromBigEndian(data[12..20]);
      var ok := CheckHmacToken(mac, data, username);
      var empty := CheckHmacToken(mac, data, []);
      if ok {
        flags := flags.(hmacOk := true);
      } else if empty {
        flags := flags.(hmacOk := true, emptyUser := true);
        username' := [];
      } else {
        return;
      }
      var initial := IsInitial(password, authTokenInitial);
      var expired := CheckTimes(now, timestamp, timestampInitial, initial, renegotiate, lifetime);
      flags := flags.(expired := expired);
      if flags.expired { clientReason := Some(TOKEN_EXPIRED); }
    }

    /** prepare_auth_token_push_reply: the first token pushed is remembered. */
    method PushReply() returns (pushed: Option<seq<byte>>)
      modifies this`authTokenInitial
      ensures pushed == authToken
      ensures authTokenInitial
           == if authToken.Some? && old(authTokenInitial).None? then authToken else old(authTokenInitial)
    {
      if authToken.Some? && authTokenInitial.None? { authTokenInitial := authToken; }
      return authToken;
    }

    /** wipe_auth_token. */
    method Wipe()
      modifies this`authToken, this`authTokenInitial
      ensures authToken == None && authTokenInitial == None
    {
      authToken, authTokenInitial := None, None;
    }
  }

  /**
   A whole session: the first token is pushed, then renewed any number of times, and at some later time the client
   presents the last token, or the one it was pushed and anything behind that. Unless the last token is the one that
   was pushed it is expired exactly outside its window, when it is older than the session, or past the lifetime. The
   pushed one is never outside a window; what follows it is either ignored or makes the password no token at all.
   */
  method Session(mac: Mac, lifetime: nat, steps: seq<Step>, tail: seq<byte>, now: nat, renegotiate: nat)
    returns (pushed: seq<byte>, last: seq<byte>, ofLast: Flags, ofPushed: Flags)
    requires Steps(steps) && steps != [] && now < U64 && renegotiate <= MAX_INTERVAL && |tail| < USER_PASS_LEN - 91
    requires steps[0].now + 2 * renegotiate < U64 && steps[|steps| - 1].now + 2 * renegotiate < U64
    requires steps[0].now + lifetime < U64
    ensures var first, end := steps[0], steps[|steps| - 1];
            var over := lifetime != 0 && now > first.now + lifetime;
            && ofLast
               == Flags(true,
                        (last != pushed && !(end.now <= now < end.now + 2 * renegotiate)) || end.now < first.now
                        || over,
                        false)
            && (ofPushed == Flags(true, over, false) || (ofPushed == Flags(false, false, false) && tail != []))
            && (tail != [] && Base64.Foreign(tail[0]) ==> ofPushed == Flags(true, over, false))
  {
    hide Sealed, Text, Opened, Checked, Run, Renewable, OldSession, OldInitial, Renewed, Stamp, IsInitial;
    var multi := new Multi(mac, lifetime);
    multi.Generate(steps[0].user, steps[0].now, steps[0].random);
    var push := multi.PushReply();
    pushed := push.value;
    RunOne(mac, steps);
    var i := 1;
    while i < |steps|
      invariant 1 <= i <= |steps| && multi.authToken.Some? && Renewable(multi.authToken.value)
      invariant multi.authToken == Run(mac, None, steps[..i]) && multi.authTokenInitial == Some(pushed)
      invariant !multi.state.emptyUser && multi.mac == mac && multi.lifetime == lifetime
    {
      RunMore(mac, steps, i);
      multi.Generate(steps[i].user, steps[i].now, steps[i].random);
      i := i + 1;
    }
    assert steps[..i] == steps;
    last := multi.authToken.value;
    TokensAre(mac, steps, pushed, last);
    var left;
    LastChecks(mac, steps, pushed, last, now, renegotiate, lifetime);
    ofLast, left := multi.Verify(steps[|steps| - 1].user, last, now, renegotiate);
    PushedChecks(mac, steps, pushed, tail, now, renegotiate, lifetime);
    ofPushed, left := multi.Verify(steps[0].user, pushed + tail, now, renegotiate);
  }

  lemma RunOne(mac: Mac, steps: seq<Step>)
    requires Steps(steps) && steps != []
    ensures Steps(steps[..1])
            && Run(mac, None, steps[..1])
               == Some(Renewed(mac, steps[0].user, None, steps[0].random, steps[0].now))
  {
    hide Renewed, Renewable;
    assert steps[..1][..0] == [];
  }

  lemma RunMore(mac: Mac, steps: seq<Step>, i: nat)
    requires Steps(steps) && 1 <= i < |steps|
    ensures Steps(steps[..i]) && Steps(steps[..i + 1])
    ensures var before := Run(mac, None, steps[..i]);
            (before.Some? ==> Renewable(before.value))
            && Run(mac, None, steps[..i + 1])
               == Some(Renewed(mac, steps[i].user, before, steps[i].random, steps[i].now))
  {
    hide Renewed, Renewable;
    assert steps[..i + 1][..i] == steps[..i];
  }

  /** The first and the last token of a session in their parts. */
  lemma TokensAre(mac: Mac, steps: seq<Step>, pushed: seq<byte>, last: seq<byte>)
    requires Steps(steps) && steps != [] && Some(last) == Run(mac, None, steps)
    requires pushed == Renewed(mac, steps[0].user, None, steps[0].random, steps[0].now)
    ensures var first, end := steps[0], steps[|steps| - 1];
            && pushed == Text(Sealed(mac, first.user, first.random, Stamp(first.now), first.now))
            && last == Text(Sealed(mac, end.user, first.random, Stamp(first.now), end.now))
            && |pushed| == |last| == 91
  {
    hide Sealed, Text, Run;
    var first, end := steps[0], steps[|steps| - 1];
    RunKeepsSession(mac, None, steps);
    IssuedLength(mac, first.user, first.random, Stamp(first.now), first.now);
    IssuedLength(mac, end.user, first.random, Stamp(first.now), end.now);
  }

  lemma LastChecks(mac: Mac, steps: seq<Step>, pushed: seq<byte>, last: seq<byte>, now: nat, renegotiate: nat,
                   lifetime: nat)
    requires Steps(steps) && steps != [] && now < U64 && renegotiate <= MAX_INTERVAL
    requires steps[|steps| - 1].now + 2 * renegotiate < U64 && steps[0].now + lifetime < U64
    requires last == Text(Sealed(mac, steps[|steps| - 1].user, steps[0].random, Stamp(steps[0].now),
                                 steps[|steps| - 1].now))
    requires |pushed| == |last| == 91
    ensures var first, end := steps[0], steps[|steps| - 1];
            var data := Opened(last);
            && data.Some? && |data.value| == TOKEN_DATA_LEN
            && Checked(mac, end.user, data.value, IsInitial(last, Some(pushed)), now, renegotiate, lifetime)
               == Flags(true,
                        (last != pushed && !(end.now <= now < end.now + 2 * renegotiate)) || end.now < first.now
                        || (lifetime != 0 && now > first.now + lifetime),
                        false)
  {
    var initial := IsInitial(last, Some(pushed));
    assert initial <==> pushed == last by { SameLength(pushed, last); }
    hide Sealed, Text, Opened, Checked, Renewable, OldSession, OldInitial, Stamp, IsInitial;
    var first, end := steps[0], steps[|steps| - 1];
    ReadsBack(mac, end.user, first.random, Stamp(first.now), end.now);
    IssuedVerifies(mac, end.user, first.random, first.now, end.now, initial, now, renegotiate, lifetime);
  }

  lemma SameLength(a: seq<byte>, b: seq<byte>)
    requires |a| == |b|
    ensures a <= b <==> a == b
  {
  }

  lemma PushedChecks(mac: Mac, steps: seq<Step>, pushed: seq<byte>, tail: seq<byte>, now: nat, renegotiate: nat,
                     lifetime: nat)
    requires Steps(steps) && steps != [] && now < U64 && renegotiate <= MAX_INTERVAL
    requires steps[0].now + 2 * renegotiate < U64 && steps[0].now + lifetime < U64
    requires pushed == Text(Sealed(mac, steps[0].user, steps[0].random, Stamp(steps[0].now), steps[0].now))
    requires |pushed| == 91
    ensures var first, data := steps[0], Opened(pushed + tail);
            && ((data.Some? && |data.value| == TOKEN_DATA_LEN) || tail != [])
            && (tail != [] && Base64.Foreign(tail[0]) ==> data.Some? && |data.value| == TOKEN_DATA_LEN)
            && (data.Some? && |data.value| == TOKEN_DATA_LEN ==>
                  Checked(mac, first.user, data.value, IsInitial(pushed + tail, Some(pushed)), now, renegotiate,
                          lifetime)
                  == Flags(true, lifetime != 0 && now > first.now + lifetime, false))
  {
    assert IsInitial(pushed + tail, Some(pushed));
    hide Sealed, Checked, Stamp, IsInitial;
    var first := steps[0];
    TailOpens(Sealed(mac, first.user, first.random, Stamp(first.now), first.now), tail);
    IssuedVerifies(mac, first.user, first.random, first.now, first.now, true, now, renegotiate, lifetime);
  }

  /** With more behind its text a token opens to its data or to no token; to its data if that is foreign to Base64. */
  lemma TailOpens(data: seq<byte>, tail: seq<byte>)
    requires |data| == TOKEN_DATA_LEN && |Text(data)| == 91
    ensures var d := Opened(Text(data) + tail);
            && (d.Some? && |d.value| == TOKEN_DATA_LEN ==> d.value == data)
            && (tail == [] || Base64.Foreign(tail[0]) ==> d == Some(data))
  {
    hide Base64.DecodeFrom, Base64.Encode, Base64.Foreign;
    var t := Base64.Encode(data);
    var s := t + tail;
    assert (Text(data) + tail)[|PREFIX|..] == s;
    Base64.RoundTrip(data, USER_PASS_LEN);
    var none: seq<byte> := [];
    assert t == s[0..80];
    Base64.DecodeSlice(s, 0, t, 0, USER_PASS_LEN, none, USER_PASS_LEN, none);
    assert none + data[0..] == data;
    Base64.DecodeGrows(s, 80, USER_PASS_LEN, data);
    if tail == [] {
      assert s == t;
    } else if Base64.Foreign(tail[0]) {
      Base64.ForeignEnds(t, tail, 0, USER_PASS_LEN, none);
    }
  }

  lemma IssuedLength(mac: Mac, user: seq<byte>, random: seq<byte>, initial: seq<byte>, now: nat)
    requires |random| == SESSION_ID_LEN && |initial| == 8
    ensures |Text(Sealed(mac, user, random, initial, now))| == 91
  {
    hide Base64.Encode, Sealed;
    Base64.EncodedLength(Sealed(mac, user, random, initial, now));
  }
}
