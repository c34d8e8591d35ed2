/** The challenge and token protocol (fpc_ta_hw_auth.c), and where it meets the database:
    finishing an enrolment and reporting an authentication. */
module HwAuth {
  import opened Bytes
  import opened DbFormat
  import opened DbOps

  const CHALLENGE_LIFETIME := 1000 * 60 * 10
  const TOKEN_SIZE := 69
  const RETRIES := 5

  /** fpc_hw_auth_token_t. */
  datatype Token = Token(
    version: byte,
    challenge: uint64,
    userId: uint64,
    authenticatorId: uint64,
    authenticatorType: uint32,
    timestamp: uint64,
    hmac: seq<byte>)

  const NO_TOKEN := Token(0, 0, 0, 0, 0, 0, Repeat(0, 32))

  /** The part of a token that is signed. */
  function Unsigned(t: Token): Token { t.(hmac := []) }

  /** The message authentication code of a token under a key; it is not interpreted further. */
  type Mac = (seq<byte>, Token) -> seq<byte>

  /** The fields of fpc_hw_auth_ta_t and of the match result. */
  datatype Auth = Auth(
    incoming: uint64,
    outgoing: uint64,
    issuedAt: uint64,
    token: Token,
    key: seq<byte>,
    keyReady: bool,
    matchedId: uint32,
    matchedTime: uint64)

  const START := Auth(0, 0, TWO_64 - 1, NO_TOKEN, Repeat(0, 32), false, 0, 0)

  // ---------------------------------------------------------------- commands on the fields

  function Integrity(a: Auth, t: Token, mac: Mac, macFails: bool): int {
    if t.version != 0 then -ERROR_INPUT
    else if !a.keyReady then -ERROR_INPUT
    else if macFails then -ERROR_IO
    else if mac(a.key, Unsigned(t)) != t.hmac then -ERROR_INPUT
    else 0
  }

  /** A token as its issuer hands it out. */
  function Signed(key: seq<byte>, t: Token, mac: Mac): Token {
    t.(hmac := mac(key, Unsigned(t)))
  }

  /** The tokens that verify are exactly those of version 0 signed under the installed key: what is
      signed verifies, what verifies was signed, and there is one signature for each content. */
  lemma VerifiesExactlySigned(a: Auth, t: Token, t': Token, mac: Mac)
    ensures Integrity(a, t, mac, false) == 0 <==> a.keyReady && t.version == 0 && t == Signed(a.key, t, mac)
    ensures a.keyReady && t.version == 0 ==> Integrity(a, Signed(a.key, t, mac), mac, false) == 0
    ensures Integrity(a, t, mac, false) == 0 && Integrity(a, t', mac, false) == 0 && Unsigned(t) == Unsigned(t') ==>
              t == t'
    ensures Integrity(a, t, mac, true) != 0
  {
    assert Unsigned(Signed(a.key, t, mac)) == Unsigned(t);
  }

  /** The token proves an authorisation: right version, signed under the installed key, and for
      this challenge. */
  predicate Authorises(t: Token, a: Auth, mac: Mac, challenge: uint64) {
    t.version == 0 && a.keyReady && t == Signed(a.key, t, mac) && t.challenge == challenge
  }

  /** The challenge issued has been answered by the token, but too late. */
  predicate Expired(a: Auth, now: uint64) {
    && a.keyReady && a.outgoing != 0 && a.token.challenge == a.outgoing
    && (now - a.issuedAt) % TWO_64 > CHALLENGE_LIFETIME
  }

  /** A validation succeeds exactly for a token that authorises the challenge issued, in time; it
      changes nothing unless it finds the challenge expired, which it reports and after which
      nothing validates until a new one is issued. */
  lemma ValidExactly(a: Auth, now: uint64, later: uint64, mac: Mac, macFails: bool)
    ensures var (status, a') := Validate(a, now, mac, macFails);
            && (status == 0 <==>
                  && !macFails && a.outgoing != 0 && Authorises(a.token, a, mac, a.outgoing)
                  && (now - a.issuedAt) % TWO_64 <= CHALLENGE_LIFETIME)
            && (status == -ERROR_TIMEDOUT <==> Expired(a, now))
            && (a' == if Expired(a, now) then a.(outgoing := 0) else a)
            && (Expired(a, now) ==> forall t: Token, f: bool :: Validate(a'.(token := t), later, mac, f).0 != 0)
  {
  }

  /** validate_incoming_token: an expired challenge is withdrawn. */
  function Validate(a: Auth, now: uint64, mac: Mac, macFails: bool): (int, Auth) {
    if !a.keyReady || a.outgoing == 0 || a.token.challenge != a.outgoing then (-ERROR_INPUT, a)
    else if (now - a.issuedAt) % TWO_64 > CHALLENGE_LIFETIME then (-ERROR_TIMEDOUT, a.(outgoing := 0))
    else (Integrity(a, a.token, mac, macFails), a)
  }

  /** One answer of the random generator. */
  datatype Draw = Draw(status: int, value: uint64)

  /** The answers of one command; the loop never asks more than six times. */
  type Draws = s: seq<Draw> | |s| == RETRIES + 1 witness seq(6, _ => Draw(0, 0))

  /** The first non-zero answer, or the last one allowed. */
  function Drawn(draws: Draws, i: nat): (d: Draw)
    requires i <= RETRIES
    ensures exists k :: i <= k <= RETRIES && d == draws[k] && (k == RETRIES || d.value != 0)
                        && forall j :: i <= j < k ==> draws[j].value == 0
    decreases RETRIES - i
  {
    if i == RETRIES || draws[i].value != 0 then draws[i] else Drawn(draws, i + 1)
  }

  /** The challenge issued for these answers, if any. */
  function Challenge(draws: Draws): Option<uint64> {
    var d := Drawn(draws, 0);
    if d.status == 0 && d.value != 0 then Some(d.value) else None
  }

  function Issue(a: Auth, draws: Draws, now: uint64): (int, Auth) {
    var d := Drawn(draws, 0);
    if d.status != 0 then (d.status, a.(outgoing := 0))
    else if d.value == 0 then (-ERROR_NOT_INITIALIZED, a.(outgoing := 0))
    else (0, a.(outgoing := d.value, issuedAt := now))
  }

  /** A challenge is issued exactly if the first non-zero number among six draws, if there is one,
      was drawn without an error; it is that number, issued now.  Otherwise there is none. */
  lemma IssueExactly(a: Auth, draws: Draws, now: uint64)
    ensures var (status, a') := Issue(a, draws, now);
            && (status == 0 <==> exists k :: 0 <= k <= RETRIES && FirstNonZero(draws, k) && draws[k].status == 0)
            && (forall k :: 0 <= k <= RETRIES && FirstNonZero(draws, k) && draws[k].status == 0 ==>
                  a' == a.(outgoing := draws[k].value, issuedAt := now))
            && (status != 0 ==> a' == a.(outgoing := 0))
  {
    var k :| 0 <= k <= RETRIES && Drawn(draws, 0) == draws[k] && (k == RETRIES || draws[k].value != 0)
             && forall j :: 0 <= j < k ==> draws[j].value == 0;
    assert draws[k].value != 0 <==> FirstNonZero(draws, k);
    forall i | 0 <= i <= RETRIES && FirstNonZero(draws, i) ensures i == k {
    }
  }

  ghost predicate FirstNonZero(draws: Draws, k: int)
    requires 0 <= k <= RETRIES
  {
    draws[k].value != 0 && forall j :: 0 <= j < k ==> draws[j].value == 0
  }

  function Swap64(x: uint64): uint64 {
    FromBe64(Reversed(Be64(x)))
  }

  function Swap32(x: uint32): uint32 {
    FromBe32(Reversed(Be32(x)))
  }

  function Reversed<T>(s: seq<T>): (r: seq<T>)
    ensures |r| == |s|
    ensures forall i :: 0 <= i < |s| ==> r[i] == s[|s| - 1 - i]
  {
    seq(|s|, i requires 0 <= i < |s| => s[|s| - 1 - i])
  }

  /** fpc_db_get_secure_user_id with its status ignored: 0 unless the set is the active one. */
  function UserIdOf(db: Database, activeKey: uint32, index: nat): uint64
    requires db.fingers.Some? && index < |db.fingers.value.entries|
  {
    if db.fingers.value.key == activeKey then db.fingers.value.entries[index].userId else 0
  }

  /** The token reported for a match, before it is signed. */
  function ResultToken(a: Auth, db: Database, activeKey: uint32, index: nat): Token
    requires db.fingers.Some? && index < |db.fingers.value.entries|
  {
    Token(0, a.incoming, UserIdOf(db, activeKey, index), db.id, Swap32(2), Swap64(a.matchedTime), [])
  }

  lemma SwappedBytes(x: uint64, y: uint32)
    ensures Be64(Swap64(x)) == Reversed(Be64(x))
    ensures Be32(Swap32(y)) == Reversed(Be32(y))
  {
    hide Be32, Be64, FromBe32, FromBe64;
    FromBe64Inverse(Reversed(Be64(x)));
    FromBe32Inverse(Reversed(Be32(y)));
  }

  /** The bytes of the type in a reported token: a fingerprint, with the lowest byte first. */
  lemma TypeBytes()
    ensures Be32(Swap32(2)) == [2, 0, 0, 0]
  {
    hide Swap32, Swap64, Be64;
    SwappedBytes(0, 2);
    assert Be32(2) == [0, 0, 0, 2];
  }

  /** get_auth_result: the status, and the token on success. */
  function Result(a: Auth, db: Database, activeKey: uint32, size: nat, mac: Mac, macFails: bool)
    : (int, Option<Token>)
  {
    if size < TOKEN_SIZE then (-ERROR_INPUT, None)
    else
      var i := IndexOfId32(db, a.matchedId);
      if i.None? then (-ERROR_INPUT, None)
      else if macFails then (-ERROR_IO, None)
      else
        var t := ResultToken(a, db, activeKey, i.value);
        (0, Some(Signed(a.key, t, mac)))
  }

  // ---------------------------------------------------------------- the module as it runs

  /** swap_bytes, in place. */
  method SwapBytes(bytes: array<byte>)
    modifies bytes
    ensures bytes[..] == Reversed(old(bytes[..]))
  {
    ghost var before := bytes[..];
    var first, last := 0, bytes.Length - 1;
    while first < last
      invariant 0 <= first <= bytes.Length && last == bytes.Length - 1 - first
      invariant first <= last + 2
      invariant forall k :: 0 <= k < first ==> bytes[k] == before[bytes.Length - 1 - k]
      invariant forall k :: last < k < bytes.Length ==> bytes[k] == before[bytes.Length - 1 - k]
      invariant forall k :: first <= k <= last ==> bytes[k] == before[k]
    {
      bytes[first], bytes[last] := bytes[last], bytes[first];
      first, last := first + 1, last - 1;
    }
  }

  class HwAuthTa {
    const mac: Mac
    var incoming: uint64
    var outgoing: uint64
    var issuedAt: uint64
    var token: Token
    var key: seq<byte>
    var keyReady: bool
    var matchedId: uint32
    var matchedTime: uint64

    ghost function State(): Auth
      reads this
    {
      Auth(incoming, outgoing, issuedAt, token, key, keyReady, matchedId, matchedTime)
    }

    constructor (mac: Mac)
      ensures this.mac == mac && State() == START
    {
      this.mac := mac;
      incoming, outgoing, issuedAt := 0, 0, TWO_64 - 1;
      token := NO_TOKEN;
      key, keyReady := Repeat(0, 32), false;
      matchedId, matchedTime := 0, 0;
    }

    method SetSharedKey(unwrapped: Option<seq<byte>>) returns (status: int)
      modifies this
      ensures State() == old(State()).(keyReady := unwrapped.Some?,
                                       key := if unwrapped.Some? then unwrapped.value else old(key))
      ensures status == if unwrapped.Some? then 0 else -ERROR_IO
    {
      keyReady := false;
      if unwrapped.None? {
        return -ERROR_IO;
      }
      key := unwrapped.value;
      keyReady := true;
      return 0;
    }

    method CheckTokenIntegrity(t: Token, macFails: bool) returns (status: int)
      ensures status == 0 <==> keyReady && t.version == 0 && !macFails && t == Signed(key, t, mac)
      ensures status == Integrity(State(), t, mac, macFails)
    {
      if t.version != 0 {
        return -ERROR_INPUT;
      }
      if !keyReady {
        return -ERROR_INPUT;
      }
      if macFails {
        return -ERROR_IO;
      }
      if mac(key, Unsigned(t)) != t.hmac {
        return -ERROR_INPUT;
      }
      return 0;
    }

    method ValidateIncomingToken(now: uint64, macFails: bool) returns (status: int)
      modifies this`outgoing
      ensures (status, State()) == Validate(old(State()), now, mac, macFails)
      ensures status == 0 ==> outgoing != 0 && Authorises(token, State(), mac, outgoing)
      ensures status == -ERROR_TIMEDOUT <==> outgoing != old(outgoing)
    {
      if !keyReady {
        return -ERROR_INPUT;
      }
      if outgoing == 0 {
        return -ERROR_INPUT;
      }
      if token.challenge != outgoing {
        return -ERROR_INPUT;
      }
      var age := (now - issuedAt) % TWO_64;
      if age > CHALLENGE_LIFETIME {
        outgoing := 0;
        return -ERROR_TIMEDOUT;
      }
      status := CheckTokenIntegrity(token, macFails);
    }

    /** The retry loop of get_enrol_challenge. */
    method GetEnrolChallenge(draws: Draws, now: uint64) returns (status: int, challenge: uint64)
      modifies this
      ensures (status, State()) == Issue(old(State()), draws, now)
      ensures status == 0 ==> challenge == outgoing != 0
    {
      outgoing := 0;
      var retries := RETRIES;
      var i := 0;
      status, challenge := draws[0].status, draws[0].value;
      while challenge == 0 && retries > 0
        invariant 0 <= i <= RETRIES && retries == RETRIES - i
        invariant status == draws[i].status && challenge == draws[i].value
        invariant Drawn(draws, i) == Drawn(draws, 0)
        invariant State() == old(State()).(outgoing := 0)
        decreases retries
      {
        retries := retries - 1;
        i := i + 1;
        status, challenge := draws[i].status, draws[i].value;
      }
      if status != 0 {
        return;
      }
      if challenge == 0 {
        return -ERROR_NOT_INITIALIZED, challenge;
      }
      issuedAt := now;
      outgoing := challenge;
    }

    method AuthorizeEnrol(t: Token, size: nat, now: uint64, macFails: bool) returns (status: int)
      modifies this
      ensures size < TOKEN_SIZE ==> status == -ERROR_INPUT && State() == old(State())
      ensures size >= TOKEN_SIZE ==>
                (status, State()) == Validate(old(State()).(token := t), now, mac, macFails)
    {
      if size < TOKEN_SIZE {
        return -ERROR_INPUT;
      }
      token := t;
      status := ValidateIncomingToken(now, macFails);
    }

    /** fpc_enrollment_allowed. */
    method EnrollmentAllowed(now: uint64, macFails: bool) returns (allowed: bool, user: uint64)
      modifies this`outgoing
      ensures State() == Validate(old(State()), now, mac, macFails).1
      ensures allowed <==> Validate(old(State()), now, mac, macFails).0 == 0
      ensures allowed ==> user == token.userId
    {
      var status := ValidateIncomingToken(now, macFails);
      return status == 0, token.userId;
    }

    method SetAuthChallenge(challenge: uint64)
      modifies this
      ensures State() == old(State()).(incoming := challenge, matchedId := 0, matchedTime := TWO_64 - 1)
    {
      matchedId, matchedTime := 0, TWO_64 - 1;
      incoming := challenge;
    }

    method GetAuthResult(db: Database, activeKey: uint32, size: nat, macFails: bool)
      returns (status: int, t: Option<Token>)
      ensures (status, t) == Result(State(), db, activeKey, size, mac, macFails)
      ensures status == 0 <==> t.Some?
      ensures t.Some? ==>
                && t.value.version == 0 && t.value.challenge == incoming && t.value.authenticatorId == db.id
                && Be32(t.value.authenticatorType) == [2, 0, 0, 0]
                && Be64(t.value.timestamp) == Reversed(Be64(matchedTime))
    {
      hide Be32, Be64, FromBe32, FromBe64;
      if size < TOKEN_SIZE {
        return -ERROR_INPUT, None;
      }
      var index := IndexOfId32(db, matchedId);
      if index.None? {
        return -ERROR_INPUT, None;
      }
      var time := Be64(matchedTime);
      var bytes := new byte[8](i requires 0 <= i < 8 => time[i]);
      assert bytes[..] == time;
      SwapBytes(bytes);
      var two := Be32(2);
      var kind := new byte[4](i requires 0 <= i < 4 => two[i]);
      assert kind[..] == two;
      SwapBytes(kind);
      SwappedBytes(matchedTime, 2);
      TypeBytes();
      var user := UserIdOf(db, activeKey, index.value);
      var result := Token(0, incoming, user, db.id, FromBe32(kind[..]), FromBe64(bytes[..]), []);
      if macFails {
        return -ERROR_IO, None;
      }
      return 0, Some(Signed(key, result, mac));
    }
  }
}
