/**
 * The stateless signed-token backend (AuthtCryptoSession). A token is the
 * Base64 form of a 48-byte record: the id (8 bytes), the expiration's binary
 * form (8 bytes) and the HMAC-SHA256 tag of those 16 bytes (32 bytes). No
 * session state is kept; validation recomputes the tag.
 */
module Crypto {
  import opened Common
  import opened Time
  import opened Text
  import opened Helper
  import Base64

  const DataSize: int := 16
  const MacSize: int := 32
  const RecordSize: int := DataSize + MacSize

  /**
   * The HMACSHA256 instance with its secret key: a fixed function from data
   * to a 32-byte tag. Its internals are not modelled.
   */
  type Hmac = f: seq<bv8> -> seq<bv8> | forall d :: |f(d)| == MacSize
    witness (d: seq<bv8>) => Zeros(MacSize)

  /** The 16 data bytes: the id, then expiration.ToBinary(). */
  function DataBlock(id: Int64, expiration: Ticks): (d: seq<bv8>)
    ensures |d| == DataSize
  {
    EncodeInt64(id) + EncodeInt64(ToBinary(expiration))
  }

  /** The 48-byte record Authenticate encodes: data block, then its tag. */
  function SignedRecord(mac: Hmac, id: Int64, expiration: Ticks): (r: seq<bv8>)
    ensures |r| == RecordSize
  {
    var data := DataBlock(id, expiration);
    data + mac(data)
  }

  /** The token Authenticate returns for a session: 64 characters, decoded by IssuedTokenDecodes. */
  function IssuedToken(mac: Hmac, id: Int64, expiration: Ticks): (t: string)
    ensures |t| == 64
  {
    Base64.Encode(SignedRecord(mac, id, expiration))
  }

  /** Base64-decoding an issued token yields exactly the 48-byte record. */
  lemma IssuedTokenDecodes(mac: Hmac, id: Int64, expiration: Ticks)
    ensures Base64.Decode(IssuedToken(mac, id, expiration)) == Some(SignedRecord(mac, id, expiration))
  {
    Base64.DecodeEncode(SignedRecord(mac, id, expiration));
  }

  /**
   * ValidateToken's result: FromBase64String throws on malformed text; a
   * record of the wrong length or with a wrong tag is null; then the id and
   * the expiration are decoded, and an expiration before `now` is null.
   */
  function Validate(mac: Hmac, token: string, now: Ticks): (r: Outcome<string>)
    ensures r.Throws? ==> r.fault == InvalidBase64 || r.fault == InvalidDateData
    ensures Base64.Decode(token).None? ==> r == Throws(InvalidBase64)
    ensures Base64.Decode(token).Some? && |Base64.Decode(token).value| != RecordSize ==> r == Null
    ensures
      (&& Base64.Decode(token).Some? && |Base64.Decode(token).value| == RecordSize
       && mac(Base64.Decode(token).value[..DataSize]) != Base64.Decode(token).value[DataSize..])
      ==> r == Null
    ensures r == Throws(InvalidDateData) ==>
      && Base64.Decode(token).Some? && |Base64.Decode(token).value| == RecordSize
      && mac(Base64.Decode(token).value[..DataSize]) == Base64.Decode(token).value[DataSize..]
  {
    match Base64.Decode(token)
    case None => Throws(InvalidBase64)
    case Some(record) =>
      if |record| != RecordSize then Null
      else if mac(record[..DataSize]) != record[DataSize..] then Null
      else
        var id := DecodeInt64(record[..8]);
        match FromBinary(DecodeInt64(record[8..DataSize]))
        case None => Throws(InvalidDateData)
        case Some(expiration) =>
          if expiration < now then Null else Value(FormatInt(id))
  }

  /**
   * The record layout: bytes 0..7 decode to the id, bytes 8..15 to the
   * expiration, and bytes 16..47 are the tag of bytes 0..15.
   */
  lemma RecordLayout(mac: Hmac, id: Int64, expiration: Ticks)
    ensures var r := SignedRecord(mac, id, expiration);
      && DecodeInt64(r[..8]) == id
      && FromBinary(DecodeInt64(r[8..DataSize])) == Some(expiration)
      && r[DataSize..] == mac(r[..DataSize])
  {
    var r := SignedRecord(mac, id, expiration);
    assert r[..8] == EncodeInt64(id);
    assert r[8..DataSize] == EncodeInt64(ToBinary(expiration));
    DecodeEncode(id);
    DecodeEncode(ToBinary(expiration));
    FromBinaryToBinary(expiration);
  }

  /** An issued token validates to its id at every time up to and including its expiration. */
  lemma IssuedTokenValidates(mac: Hmac, id: Int64, expiration: Ticks, now: Ticks)
    requires now <= expiration
    ensures Validate(mac, IssuedToken(mac, id, expiration), now) == Value(FormatInt(id))
  {
    IssuedTokenDecodes(mac, id, expiration);
    RecordLayout(mac, id, expiration);
  }

  /** Once its expiration has passed, an issued token is rejected. */
  lemma IssuedTokenExpires(mac: Hmac, id: Int64, expiration: Ticks, now: Ticks)
    requires expiration < now
    ensures Validate(mac, IssuedToken(mac, id, expiration), now) == Null
  {
    IssuedTokenDecodes(mac, id, expiration);
    RecordLayout(mac, id, expiration);
  }

  /**
   * Every accepted token carries 16 data bytes followed by their tag, and
   * the result is the id in those data bytes: nothing is trusted before the
   * tag matches.
   */
  lemma AcceptedTokenIsSigned(mac: Hmac, token: string, now: Ticks)
    requires Validate(mac, token, now).Value?
    ensures Base64.Decode(token).Some?
    ensures var record := Base64.Decode(token).value;
      && |record| == RecordSize
      && record == record[..DataSize] + mac(record[..DataSize])
      && Validate(mac, token, now).value == FormatInt(DecodeInt64(record[..8]))
      && FromBinary(DecodeInt64(record[8..DataSize])).Some?
      && FromBinary(DecodeInt64(record[8..DataSize])).value >= now
  {
    var record := Base64.Decode(token).value;
    assert record == record[..DataSize] + record[DataSize..];
  }

  /**
   * Changing the data bytes of a record without the key (keeping the old
   * tag) is caught, unless the new data happen to have the same tag.
   */
  lemma TamperedDataRejected(mac: Hmac, data: seq<bv8>, forged: seq<bv8>, now: Ticks)
    requires |data| == DataSize && |forged| == DataSize
    requires mac(forged) != mac(data)
    ensures Validate(mac, Base64.Encode(forged + mac(data)), now) == Null
  {
    var record := forged + mac(data);
    Base64.DecodeEncode(record);
    assert record[..DataSize] == forged && record[DataSize..] == mac(data);
  }

  /** Buffer.BlockCopy from a byte sequence into a byte array. */
  method BlockCopy(src: seq<bv8>, srcOffset: nat, dst: array<bv8>, dstOffset: nat, count: nat)
    requires srcOffset + count <= |src| && dstOffset + count <= dst.Length
    modifies dst
    ensures dst[..] == old(dst[..dstOffset]) + src[srcOffset..srcOffset + count] + old(dst[dstOffset + count..])
  {
    forall i | 0 <= i < count {
      dst[dstOffset + i] := src[srcOffset + i];
    }
  }

  /** BufferEquals: compares `length` bytes of a from offsetA with those of b from offsetB, stopping at the first difference. */
  method BufferEquals(a: array<bv8>, offsetA: int, b: array<bv8>, offsetB: int, length: int) returns (equal: bool)
    requires 0 <= offsetA && 0 <= offsetB
    requires offsetA + length <= a.Length && offsetB + length <= b.Length
    ensures equal <==> forall i :: offsetA <= i < offsetA + length ==> a[i] == b[i - offsetA + offsetB]
  {
    var i := 0;
    while i < length
      invariant 0 <= i <= (if length < 0 then 0 else length)
      invariant forall j :: offsetA <= j < offsetA + i ==> a[j] == b[j - offsetA + offsetB]
    {
      if a[offsetA + i] != b[offsetB + i] {
        return false;
      }
      i := i + 1;
    }
    return true;
  }

  /** Position-wise comparison with the tail of a record is equality with that tail. */
  lemma TailComparison(tag: seq<bv8>, bytes: seq<bv8>)
    requires |tag| == MacSize && |bytes| == RecordSize
    ensures (forall i :: 0 <= i < MacSize ==> tag[i] == bytes[DataSize + i]) <==> tag == bytes[DataSize..]
  {
    if forall i :: 0 <= i < MacSize ==> tag[i] == bytes[DataSize + i] {
      assert forall i :: 0 <= i < MacSize ==> tag[i] == bytes[DataSize..][i];
    }
  }

  /** Comparing the arrays compares the sequences they hold. */
  lemma SameComparison(hash: array<bv8>, record: array<bv8>, tag: seq<bv8>, bytes: seq<bv8>)
    requires hash[..] == tag && record[..] == bytes
    requires |tag| == MacSize && |bytes| == RecordSize
    ensures (forall i :: 0 <= i < 0 + MacSize ==> hash[i] == record[i - 0 + DataSize])
        <==> (forall i :: 0 <= i < MacSize ==> tag[i] == bytes[DataSize + i])
  {
    assert forall i :: 0 <= i < MacSize ==> hash[i] == tag[i] && record[i + DataSize] == bytes[DataSize + i];
  }

  class AuthtCryptoSession {
    const hmac: Hmac
    var nextId: Int32

    constructor (hmac: Hmac)
      ensures this.hmac == hmac && nextId == 0
    {
      this.hmac := hmac;
      nextId := 0;
    }

    /**
     * Issues the next id and returns the Base64 of the signed record with
     * expiration now + 30 minutes. The user name and password are not used.
     */
    method Authenticate(username: string, password: string, now: Ticks) returns (token: string)
      requires CanIssueAt(now)
      modifies this`nextId
      ensures nextId == Increment32(old(nextId))
      ensures token == IssuedToken(hmac, nextId, now + Lifetime)
    {
      nextId := Increment32(nextId);
      var id: Int64 := nextId;
      var expiration: Ticks := now + Lifetime;
      var record := new bv8[RecordSize](_ => 0);
      var writer := new Writer(record);
      writer.Write(id);
      writer.Write(ToBinary(expiration));
      assert record[..DataSize] == DataBlock(id, expiration);
      var hash := hmac(record[..DataSize]);
      BlockCopy(hash, 0, record, DataSize, MacSize);
      assert record[..] == SignedRecord(hmac, id, expiration);
      token := Base64.Encode(record[..]);
    }

    /**
     * Recomputes the tag of the first 16 bytes of a 48-byte record and
     * compares it with the last 32 bytes using BufferEquals.
     */
    method TagMatches(bytes: seq<bv8>) returns (equal: bool)
      requires |bytes| == RecordSize
      ensures equal <==> hmac(bytes[..DataSize]) == bytes[DataSize..]
    {
      var record := new bv8[RecordSize](i requires 0 <= i < RecordSize => bytes[i]);
      var tag := hmac(bytes[..DataSize]);
      var hash := new bv8[MacSize](i requires 0 <= i < MacSize => tag[i]);
      assert record[..] == bytes && hash[..] == tag;
      equal := BufferEquals(hash, 0, record, DataSize, MacSize);
      SameComparison(hash, record, tag, bytes);
      TailComparison(tag, bytes);
    }

    /** Checks a token against the tag and the clock; changes no state. */
    method ValidateToken(token: string, now: Ticks) returns (r: Outcome<string>)
      ensures r == Validate(hmac, token, now)
    {
      var decoded := Base64.Decode(token);
      if decoded.None? {
        return Throws(InvalidBase64);
      }
      var record := decoded.value;
      if |record| != RecordSize {
        return Null;
      }
      var equal := TagMatches(record);
      if !equal {
        return Null;
      }
      var id := DecodeInt64(record[..8]);
      var expiration := FromBinary(DecodeInt64(record[8..DataSize]));
      if expiration.None? {
        return Throws(InvalidDateData);
      }
      if expiration.value < now {
        return Null;
      }
      return Value(FormatInt(id));
    }
  }

  /** A fresh backend accepts its first token right after issuing it, and reports id 1. */
  method FirstSessionScenario(hmac: Hmac, now: Ticks) returns (token: string, result: Outcome<string>)
    requires CanIssueAt(now)
    ensures result == Value("1")
  {
    var expiration: Ticks := now + Lifetime;
    IssuedTokenValidates(hmac, 1, expiration, now);
    FormatOne();
    var session := new AuthtCryptoSession(hmac);
    token := session.Authenticate("alice", "pw1", now);
    result := session.ValidateToken(token, now);
  }
}
