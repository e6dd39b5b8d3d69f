/**
 * The in-memory backend (AuthtMemSession): a dictionary from a random `long`
 * key to the session record. The token is the key's decimal string.
 */
module Mem {
  import opened Common
  import opened Time
  import opened Text
  import opened Helper

  /** AuthtRecord: the key, the user id and the expiration. */
  datatype Record = Record(key: Int64, id: Int32, expiration: Ticks)

  /** Each random draw is 8 bytes, turned into a key by BitConverter.ToInt64. */
  predicate AllWords(draws: seq<seq<bv8>>)
  {
    forall i :: 0 <= i < |draws| ==> |draws[i]| == FieldSize
  }

  /** Some draw gives a key that is not yet in the dictionary, so the retry loop ends. */
  predicate HasFreshDraw(sessions: map<Int64, Record>, draws: seq<seq<bv8>>)
    requires AllWords(draws)
  {
    exists i :: 0 <= i < |draws| && DecodeInt64(draws[i]) !in sessions
  }

  /** The index of the draw the retry loop stops at: the first whose key is new. */
  function FirstFresh(sessions: map<Int64, Record>, draws: seq<seq<bv8>>): (n: nat)
    requires AllWords(draws) && HasFreshDraw(sessions, draws)
    ensures n < |draws| && DecodeInt64(draws[n]) !in sessions
    ensures forall j :: 0 <= j < n ==> DecodeInt64(draws[j]) in sessions
    decreases |draws|
  {
    if DecodeInt64(draws[0]) !in sessions then 0
    else
      assert HasFreshDraw(sessions, draws[1..]) by {
        var i :| 0 <= i < |draws| && DecodeInt64(draws[i]) !in sessions;
        assert draws[1..][i - 1] == draws[i];
      }
      1 + FirstFresh(sessions, draws[1..])
  }

  /**
   * ValidateToken: null for a token that does not parse, for a key that has
   * no record, and for an expired record; otherwise the record's id. It never
   * throws.
   */
  function Validate(sessions: map<Int64, Record>, token: string, now: Ticks): (r: Outcome<string>)
    ensures !r.Throws?
    ensures r.Value? <==>
      ParseInt64(token).Some? && ParseInt64(token).value in sessions
      && sessions[ParseInt64(token).value].expiration >= now
  {
    match ParseInt64(token)
    case None => Null
    case Some(key) =>
      if key !in sessions then Null
      else
        var rec := sessions[key];
        if rec.expiration < now then Null else Value(FormatInt(rec.id))
  }

  /** A non-null result is the id of the record stored under the token's key. */
  lemma AcceptedTokenIsStored(sessions: map<Int64, Record>, token: string, now: Ticks)
    requires Validate(sessions, token, now).Value?
    ensures ParseInt64(token).Some? && ParseInt64(token).value in sessions
    ensures var rec := sessions[ParseInt64(token).value];
      rec.expiration >= now && Validate(sessions, token, now).value == FormatInt(rec.id)
  {
  }

  /** The token of a stored record validates to its id until the record expires. */
  lemma StoredTokenValidates(sessions: map<Int64, Record>, key: Int64, now: Ticks)
    requires key in sessions
    ensures Validate(sessions, FormatInt(key), now)
         == if now <= sessions[key].expiration then Value(FormatInt(sessions[key].id)) else Null
  {
    ParseFormat(key);
  }

  /** Storing a record under another key does not change what a token validates to. */
  lemma OtherInsertKeepsOutcome(sessions: map<Int64, Record>, key: Int64, other: Int64, rec: Record, now: Ticks)
    requires other != key
    ensures Validate(sessions[other := rec], FormatInt(key), now) == Validate(sessions, FormatInt(key), now)
  {
    ParseFormat(key);
  }

  /** "not-a-number" and the empty string do not parse, so they are null. */
  lemma MalformedTokensRejected(sessions: map<Int64, Record>, now: Ticks)
    ensures Validate(sessions, "not-a-number", now) == Null
    ensures Validate(sessions, "", now) == Null
  {
    assert !IsDigit("not-a-number"[0]);
  }

  /** Every record is stored under its own key, as Authenticate stores it. */
  ghost predicate KeyedByOwnKey(sessions: map<Int64, Record>)
  {
    forall k :: k in sessions ==> sessions[k].key == k
  }

  /**
   * In a dictionary keyed by its records' own keys, the decimal form of a
   * stored record's Key is a token that validates to the record's id until
   * it expires.
   */
  lemma RecordKeyIsToken(sessions: map<Int64, Record>, k: Int64, now: Ticks)
    requires KeyedByOwnKey(sessions) && k in sessions
    ensures var rec := sessions[k];
      Validate(sessions, FormatInt(rec.key), now) == if now <= rec.expiration then Value(FormatInt(rec.id)) else Null
  {
    StoredTokenValidates(sessions, k, now);
  }

  class AuthtMemSession {
    var sessions: map<Int64, Record>
    var nextId: Int32

    /** Every record is stored under its own key. */
    ghost predicate Valid()
      reads this
    {
      KeyedByOwnKey(sessions)
    }

    constructor ()
      ensures sessions == map[] && nextId == 0 && Valid()
    {
      sessions := map[];
      nextId := 0;
    }

    /**
     * Issues the next id, draws keys until one is not in the dictionary,
     * stores a record under it expiring 30 minutes after `now`, and returns
     * the key's decimal string. `draws` stands for the random generator's
     * successive outputs.
     */
    method Authenticate(username: string, password: string, draws: seq<seq<bv8>>, now: Ticks)
      returns (token: string)
      requires AllWords(draws) && HasFreshDraw(sessions, draws) && CanIssueAt(now)
      requires Valid()
      modifies this
      ensures Valid()
      ensures nextId == Increment32(old(nextId))
      ensures var key := DecodeInt64(draws[FirstFresh(old(sessions), draws)]);
        && key !in old(sessions)
        && sessions == old(sessions)[key := Record(key, nextId, now + Lifetime)]
        && token == FormatInt(key)
      ensures |sessions| == |old(sessions)| + 1
      ensures old(sessions).Keys <= sessions.Keys
    {
      nextId := Increment32(nextId);
      var id := nextId;
      var i := 0;
      var key := DecodeInt64(draws[i]);
      while key in sessions
        invariant 0 <= i <= FirstFresh(sessions, draws)
        invariant key == DecodeInt64(draws[i])
        decreases FirstFresh(sessions, draws) - i
      {
        i := i + 1;
        key := DecodeInt64(draws[i]);
      }
      var record := Record(key, id, now + Lifetime);
      sessions := sessions[key := record];
      token := FormatInt(key);
    }

    /** Looks the token up; the dictionary is not changed. */
    method ValidateToken(token: string, now: Ticks) returns (r: Outcome<string>)
      ensures r == Validate(sessions, token, now)
    {
      var key := ParseInt64(token);
      if key.None? {
        return Null;
      }
      if key.value !in sessions {
        return Null;
      }
      var rec := sessions[key.value];
      if rec.expiration < now {
        return Null;
      }
      return Value(FormatInt(rec.id));
    }
  }

  /**
   * Two sessions on a fresh backend: both tokens validate to their ids (1 and
   * 2) at issue time, and malformed tokens are null.
   */
  method TwoSessionScenario(first: seq<bv8>, second: seq<bv8>, now: Ticks)
    returns (r1: Outcome<string>, r2: Outcome<string>, bad: Outcome<string>)
    requires |first| == FieldSize && |second| == FieldSize && DecodeInt64(first) != DecodeInt64(second)
    requires CanIssueAt(now)
    ensures r1 == Value("1") && r2 == Value("2") && bad == Null
  {
    var session := new AuthtMemSession();
    var k1, k2 := DecodeInt64(first), DecodeInt64(second);
    assert DecodeInt64([first][0]) !in session.sessions;
    var t1 := session.Authenticate("alice", "pw1", [first], now);
    assert session.sessions.Keys == {k1};
    assert DecodeInt64([first, second][1]) !in session.sessions;
    var t2 := session.Authenticate("bob", "pw2", [first, second], now);
    StoredTokenValidates(session.sessions, k1, now);
    StoredTokenValidates(session.sessions, k2, now);
    r1 := session.ValidateToken(t1, now);
    r2 := session.ValidateToken(t2, now);
    MalformedTokensRejected(session.sessions, now);
    bad := session.ValidateToken("not-a-number", now);
  }
}
