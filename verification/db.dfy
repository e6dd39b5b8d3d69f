/**
 * The file-backed backend (AuthtDbSession). Session k owns the 1024-byte
 * slot at offset k * 1024 of a single file; a slot starts with three
 * `long`s (the random key, the id, the expiration's binary form) and the
 * rest is padding. A token is "<id>*<key>".
 */
module Db {
  import opened Common
  import opened Time
  import opened Text
  import opened Helper

  /** c_recordSize */
  const RecordSize: int := 1024
  /** c_minRecordSize: the three `long`s at the start of a slot */
  const MinRecordSize: int := 3 * FieldSize

  /** The bytes Authenticate writes: key, id, expiration.ToBinary(), then zero padding. */
  function Record(key: Int64, id: Int64, expiration: Ticks): (r: seq<bv8>)
    ensures |r| == RecordSize
    ensures r[MinRecordSize..] == Zeros(RecordSize - MinRecordSize)
  {
    EncodeFields([key, id, ToBinary(expiration)]) + Zeros(RecordSize - MinRecordSize)
  }

  /**
   * The file after writing `data` at `position`: those bytes are replaced,
   * the file grows if the write ends past its end, and a gap between the
   * old end and `position` reads as zeros.
   */
  function WriteAt(file: seq<bv8>, position: nat, data: seq<bv8>): (r: seq<bv8>)
    ensures |r| == if position + |data| > |file| then position + |data| else |file|
    ensures forall i :: 0 <= i < |r| ==>
      r[i] == if position <= i < position + |data| then data[i - position]
              else if i < |file| then file[i] else 0
  {
    var before := if position <= |file| then file[..position] else file + Zeros(position - |file|);
    var after := if position + |data| < |file| then file[position + |data|..] else [];
    before + data + after
  }

  /**
   * A fresh zeroed buffer of n bytes after reading the file at `position`:
   * the bytes the file has there, and zeros for whatever lies past its end.
   */
  function ReadAt(file: seq<bv8>, position: nat, n: nat): (r: seq<bv8>)
    ensures |r| == n
    ensures forall i :: 0 <= i < n ==> r[i] == if position + i < |file| then file[position + i] else 0
  {
    if position >= |file| then Zeros(n)
    else if position + n <= |file| then file[position..position + n]
    else file[position..] + Zeros(position + n - |file|)
  }

  /** Reading back the bytes just written gives them back. */
  lemma ReadAfterWrite(file: seq<bv8>, position: nat, data: seq<bv8>)
    ensures ReadAt(WriteAt(file, position, data), position, |data|) == data
  {
    var r := ReadAt(WriteAt(file, position, data), position, |data|);
    assert forall i :: 0 <= i < |data| ==> r[i] == data[i];
  }

  /** A write leaves every byte range that does not overlap it reading as before. */
  lemma ReadBesideWrite(file: seq<bv8>, position: nat, data: seq<bv8>, p: nat, n: nat)
    requires p + n <= position || position + |data| <= p
    ensures ReadAt(WriteAt(file, position, data), p, n) == ReadAt(file, p, n)
  {
    var a, b := ReadAt(WriteAt(file, position, data), p, n), ReadAt(file, p, n);
    assert forall i :: 0 <= i < n ==> a[i] == b[i];
  }

  /** Field i of a decoded field sequence is the `long` at offset 8 * i. */
  lemma {:induction false} DecodeFieldAt(b: seq<bv8>, n: nat, i: nat)
    requires FieldSize * n <= |b| && i < n
    ensures DecodeFields(b, n)[i] == DecodeInt64(b[FieldSize * i .. FieldSize * i + FieldSize])
  {
    if i > 0 {
      DecodeFieldAt(b[FieldSize..], n - 1, i - 1);
      assert b[FieldSize..][FieldSize * (i - 1) .. FieldSize * (i - 1) + FieldSize]
          == b[FieldSize * i .. FieldSize * i + FieldSize];
    }
  }

  /** The three `long`s at the start of a record are the key, the id and the expiration word. */
  lemma RecordFields(key: Int64, id: Int64, expiration: Ticks)
    ensures DecodeFields(Record(key, id, expiration), 3) == [key, id, ToBinary(expiration)]
  {
    DecodeEncodeFields([key, id, ToBinary(expiration)], Zeros(RecordSize - MinRecordSize));
  }

  /** The token Authenticate returns: "<id>*<key>". */
  function Token(id: Int64, key: Int64): (t: string)
    ensures Count(t, '*') == 1
  {
    SeparatedOnce(FormatInt(id), FormatInt(key));
    FormatInt(id) + "*" + FormatInt(key)
  }

  /** Two star-free strings joined by one star hold exactly one star. */
  lemma SeparatedOnce(a: string, b: string)
    requires '*' !in a && '*' !in b
    ensures Count(a + "*" + b, '*') == 1
  {
    CountAppend(a, "*" + b);
    CountAppend("*", b);
    CountAbsent(a);
    CountAbsent(b);
    assert "*"[1..] == "";
    assert a + "*" + b == a + ("*" + b);
  }

  lemma {:induction false} CountAppend(a: string, b: string)
    ensures Count(a + b, '*') == Count(a, '*') + Count(b, '*')
  {
    if a != [] {
      CountAppend(a[1..], b);
      assert (a + b)[1..] == a[1..] + b;
    } else {
      assert a + b == b;
    }
  }

  lemma {:induction false} CountAbsent(s: string)
    requires '*' !in s
    ensures Count(s, '*') == 0
  {
    if s != [] {
      CountAbsent(s[1..]);
    }
  }

  /** AuthtDbSession.ValidateToken's parsing: split on '*', exactly two parts, each a `long`. */
  function ParseToken(token: string): (r: Option<(Int64, Int64)>)
    ensures r.Some? ==> Count(token, '*') == 1
  {
    var pair := Split(token, '*');
    if |pair| != 2 then None
    else match (ParseInt64(pair[0]), ParseInt64(pair[1]))
      case (Some(id), Some(key)) => Some((id, key))
      case _ => None
  }

  /** Every issued token parses back to its id and key. */
  lemma ParseTokenOfToken(id: Int64, key: Int64)
    ensures ParseToken(Token(id, key)) == Some((id, key))
  {
    SplitPair(FormatInt(id), FormatInt(key), '*');
    assert Token(id, key) == FormatInt(id) + ['*'] + FormatInt(key);
    ParseFormat(id);
    ParseFormat(key);
  }

  /**
   * AuthtDbSession.ValidateToken after parsing the id and the key: the bounds check and the slot
   * position use unchecked `long` arithmetic; a negative position throws;
   * the slot is read into a zeroed buffer; the expiration word is decoded
   * (which may throw) before the key, the id and the expiration are checked.
   */
  function CheckRecord(file: seq<bv8>, id: Int64, key: Int64, now: Ticks): (r: Outcome<string>)
    ensures Wrap64(Wrap64(id + 1) * RecordSize) > |file| ==> r == Null
    ensures r.Throws? ==> r.fault == NegativePosition || r.fault == InvalidDateData
    ensures r.Value? ==> r.value == FormatInt(id)
    ensures r == Throws(NegativePosition) <==>
      Wrap64(Wrap64(id + 1) * RecordSize) <= |file| && Wrap64(id * RecordSize) < 0
  {
    if Wrap64(Wrap64(id + 1) * RecordSize) > |file| then Null
    else
      var position := Wrap64(id * RecordSize);
      if position < 0 then Throws(NegativePosition)
      else
        var fields := DecodeFields(ReadAt(file, position, RecordSize), 3);
        match FromBinary(fields[2])
        case None => Throws(InvalidDateData)
        case Some(expiration) =>
          if fields[0] != key then Null
          else if fields[1] != id then Null
          else if expiration < now then Null
          else Value(FormatInt(fields[1]))
  }

  /** ValidateToken: null for a token that does not parse, otherwise the slot check. */
  function Validate(file: seq<bv8>, token: string, now: Ticks): (r: Outcome<string>)
    ensures Count(token, '*') != 1 ==> r == Null
    ensures ParseToken(token).None? ==> r == Null
    ensures r.Throws? ==> r.fault == NegativePosition || r.fault == InvalidDateData
  {
    match ParseToken(token)
    case None => Null
    case Some((id, key)) => CheckRecord(file, id, key, now)
  }

  /**
   * A non-null result means every check passed: the token parsed to an id
   * and a key, the slot position is non-negative, the slot read there holds
   * that key and that id and an expiration no earlier than `now`, and the
   * result is the id.
   */
  lemma AcceptedTokenMatchesSlot(file: seq<bv8>, token: string, now: Ticks)
    requires Validate(file, token, now).Value?
    ensures ParseToken(token).Some?
    ensures var (id, key) := ParseToken(token).value;
      var position := Wrap64(id * RecordSize);
      && position >= 0
      && Wrap64(Wrap64(id + 1) * RecordSize) <= |file|
      && var fields := DecodeFields(ReadAt(file, position, RecordSize), 3);
      && fields[0] == key
      && fields[1] == id
      && FromBinary(fields[2]).Some? && FromBinary(fields[2]).value >= now
      && Validate(file, token, now) == Value(FormatInt(id))
  {
  }

  /**
   * The file after session `id` has written its record: the slot of `id`
   * holds the record, the file reaches at least to the slot's end, and every
   * other byte of the old file is unchanged.
   */
  function Issue(file: seq<bv8>, id: Int32, key: Int64, expiration: Ticks): (r: seq<bv8>)
    requires id >= 0
    ensures |r| == if (id + 1) * RecordSize > |file| then (id + 1) * RecordSize else |file|
    ensures r[id * RecordSize .. (id + 1) * RecordSize] == Record(key, id, expiration)
    ensures forall i :: 0 <= i < |file| && !(id * RecordSize <= i < (id + 1) * RecordSize) ==> r[i] == file[i]
  {
    var r := WriteAt(file, id * RecordSize, Record(key, id, expiration));
    ReadAfterWrite(file, id * RecordSize, Record(key, id, expiration));
    assert ReadAt(r, id * RecordSize, RecordSize) == r[id * RecordSize .. (id + 1) * RecordSize];
    r
  }

  /** After the issue, the slot of `id` lies inside the file and reads back as the record. */
  lemma IssuedSlot(file: seq<bv8>, id: Int32, key: Int64, expiration: Ticks)
    requires id >= 0
    ensures var f := Issue(file, id, key, expiration);
      (id + 1) * RecordSize <= |f| && ReadAt(f, id * RecordSize, RecordSize) == Record(key, id, expiration)
  {
    ReadAfterWrite(file, id * RecordSize, Record(key, id, expiration));
  }

  /**
   * When the token's id x leads (after wrapping) to the slot of k, which
   * holds a record, the outcome is the comparison of that record's key, id
   * and expiration with the token's.
   */
  lemma SlotOutcome(file: seq<bv8>, x: Int64, key: Int64, now: Ticks,
                    k: nat, recKey: Int64, recId: Int64, expiration: Ticks)
    requires Wrap64(Wrap64(x + 1) * RecordSize) == (k + 1) * RecordSize <= |file|
    requires Wrap64(x * RecordSize) == k * RecordSize
    requires ReadAt(file, k * RecordSize, RecordSize) == Record(recKey, recId, expiration)
    ensures CheckRecord(file, x, key, now)
         == if recKey == key && recId == x && now <= expiration then Value(FormatInt(x)) else Null
  {
    RecordFields(recKey, recId, expiration);
    FromBinaryToBinary(expiration);
  }

  /** A slot with a record for `id` in it validates the token for that id and key until it expires. */
  lemma SlotValidates(file: seq<bv8>, id: Int32, key: Int64, expiration: Ticks, now: Ticks)
    requires id >= 0 && (id + 1) * RecordSize <= |file|
    requires ReadAt(file, id * RecordSize, RecordSize) == Record(key, id, expiration)
    ensures Validate(file, Token(id, key), now) == if now <= expiration then Value(FormatInt(id)) else Null
  {
    ParseTokenOfToken(id, key);
    SlotOutcome(file, id, key, now, id, key, id, expiration);
  }

  /** A freshly issued token validates to its id up to its expiration, and is null after it. */
  lemma IssuedTokenValidates(file: seq<bv8>, id: Int32, key: Int64, expiration: Ticks, now: Ticks)
    requires id >= 0
    ensures Validate(Issue(file, id, key, expiration), Token(id, key), now)
         == if now <= expiration then Value(FormatInt(id)) else Null
  {
    ReadAfterWrite(file, id * RecordSize, Record(key, id, expiration));
    SlotValidates(Issue(file, id, key, expiration), id, key, expiration, now);
  }

  /** Slots of distinct non-negative ids do not overlap. */
  lemma SlotsDisjoint(id: int, other: int)
    requires 0 <= id && 0 <= other && id != other
    ensures (id + 1) * RecordSize <= other * RecordSize || (other + 1) * RecordSize <= id * RecordSize
  {
    if id < other {
      assert (id + 1) * RecordSize <= other * RecordSize;
    } else {
      assert (other + 1) * RecordSize <= id * RecordSize;
    }
  }

  /** Issuing a session for another id leaves an issued token's outcome unchanged. */
  lemma IssuedTokenSurvivesOtherIssue(file: seq<bv8>, id: Int32, key: Int64, expiration: Ticks,
                                      other: Int32, otherKey: Int64, otherExpiration: Ticks, now: Ticks)
    requires id >= 0 && other >= 0 && id != other
    ensures var f := Issue(Issue(file, id, key, expiration), other, otherKey, otherExpiration);
      Validate(f, Token(id, key), now) == if now <= expiration then Value(FormatInt(id)) else Null
  {
    var f0 := Issue(file, id, key, expiration);
    var f := Issue(f0, other, otherKey, otherExpiration);
    ReadAfterWrite(file, id * RecordSize, Record(key, id, expiration));
    SlotsDisjoint(id, other);
    ReadBesideWrite(f0, other * RecordSize, Record(otherKey, other, otherExpiration), id * RecordSize, RecordSize);
    SlotValidates(f, id, key, expiration, now);
  }

  /**
   * A token whose id is negative (down to -2^53) passes the bounds check and
   * then throws when the stream position is set, whatever the file holds.
   */
  lemma NegativeIdThrows(file: seq<bv8>, id: Int64, key: Int64, now: Ticks)
    requires -0x20_0000_0000_0000 <= id < 0
    ensures Validate(file, Token(id, key), now) == Throws(NegativePosition)
  {
    ParseTokenOfToken(id, key);
    assert Wrap64(id + 1) == id + 1;
    assert Wrap64((id + 1) * RecordSize) == (id + 1) * RecordSize;
    assert Wrap64(id * RecordSize) == id * RecordSize;
  }

  /**
   * A token whose id lies in [2^53, 2^54) is non-negative, yet it also
   * throws, whatever the file holds: (id + 1) * 1024 wraps to zero or below,
   * so the bounds check passes, and id * 1024 wraps to a negative position.
   */
  lemma LargeIdThrows(file: seq<bv8>, id: Int64, key: Int64, now: Ticks)
    requires 0x20_0000_0000_0000 <= id < 0x40_0000_0000_0000
    ensures Validate(file, Token(id, key), now) == Throws(NegativePosition)
  {
    ParseTokenOfToken(id, key);
    assert Wrap64(id + 1) == id + 1;
    WrapHigh((id + 1) * RecordSize);
    WrapHigh(id * RecordSize);
    assert Validate(file, Token(id, key), now) == CheckRecord(file, id, key, now);
  }

  /** A product past MaxInt64 but at most 2^64 wraps to itself less 2^64. */
  lemma WrapHigh(x: int)
    requires MaxInt64 < x <= Two64
    ensures Wrap64(x) == x - Two64
  {
    if x < Two64 {
      assert x % Two64 == x;
    } else {
      assert x % Two64 == 0;
    }
  }

  /**
   * The id 2^54 + id aliases the slot of id (the products wrap modulo 2^64),
   * but the id stored in the slot does not match, so the token is null.
   */
  lemma AliasedIdRejected(file: seq<bv8>, id: Int32, key: Int64, expiration: Ticks, now: Ticks)
    requires id >= 0
    ensures Validate(Issue(file, id, key, expiration), Token(id + 0x40_0000_0000_0000, key), now) == Null
  {
    IssuedSlot(file, id, key, expiration);
    AliasOfSlotRejected(Issue(file, id, key, expiration), id, key, expiration, now);
  }

  /** The alias of a non-negative id whose slot holds that id's record is null. */
  lemma AliasOfSlotRejected(f: seq<bv8>, id: Int32, key: Int64, expiration: Ticks, now: Ticks)
    requires id >= 0 && (id + 1) * RecordSize <= |f|
    requires ReadAt(f, id * RecordSize, RecordSize) == Record(key, id, expiration)
    ensures Validate(f, Token(id + 0x40_0000_0000_0000, key), now) == Null
  {
    var alias: Int64 := id + 0x40_0000_0000_0000;
    AliasCheckedAgainstSlot(f, id, key, expiration, now);
    ParseTokenOfToken(alias, key);
    assert Validate(f, Token(alias, key), now) == CheckRecord(f, alias, key, now);
  }

  lemma AliasCheckedAgainstSlot(f: seq<bv8>, id: Int32, key: Int64, expiration: Ticks, now: Ticks)
    requires id >= 0 && (id + 1) * RecordSize <= |f|
    requires ReadAt(f, id * RecordSize, RecordSize) == Record(key, id, expiration)
    ensures CheckRecord(f, id + 0x40_0000_0000_0000, key, now) == Null
  {
    AliasArithmetic(id);
    SlotOutcome(f, id + 0x40_0000_0000_0000, key, now, id, key, id, expiration);
  }

  /** The right id with any other key is null. */
  lemma WrongKeyRejected(file: seq<bv8>, id: Int32, key: Int64, otherKey: Int64, expiration: Ticks, now: Ticks)
    requires id >= 0 && otherKey != key
    ensures Validate(Issue(file, id, key, expiration), Token(id, otherKey), now) == Null
  {
    var f := Issue(file, id, key, expiration);
    ParseTokenOfToken(id, otherKey);
    ReadAfterWrite(file, id * RecordSize, Record(key, id, expiration));
    SlotOutcome(f, id, otherKey, now, id, key, id, expiration);
    assert Validate(f, Token(id, otherKey), now) == CheckRecord(f, id, otherKey, now);
  }

  /** A non-negative id whose slot ends past the end of the file is null. */
  lemma BeyondEndRejected(file: seq<bv8>, id: Int32, key: Int64, now: Ticks)
    requires id >= 0 && (id + 1) * RecordSize > |file|
    ensures Validate(file, Token(id, key), now) == Null
  {
    ParseTokenOfToken(id, key);
  }

  lemma AliasArithmetic(id: Int32)
    requires id >= 0
    ensures var alias: Int64 := id + 0x40_0000_0000_0000;
      && Wrap64(Wrap64(alias + 1) * RecordSize) == (id + 1) * RecordSize
      && Wrap64(alias * RecordSize) == id * RecordSize
  {
    var alias: Int64 := id + 0x40_0000_0000_0000;
    assert (alias + 1) * RecordSize == (id + 1) * RecordSize + Two64;
    assert alias * RecordSize == id * RecordSize + Two64;
    WrapPlusTwo64((id + 1) * RecordSize);
    WrapPlusTwo64(id * RecordSize);
  }

  lemma WrapPlusTwo64(x: Int64)
    ensures Wrap64(x + Two64) == x
  {
  }

  /**
   * A slot inside the file that no session wrote is all zeros: it holds key 0,
   * id 0 and expiration tick 0, so only "0*0" at tick 0 gets through.
   */
  lemma ZeroSlotRejected(file: seq<bv8>, id: Int32, key: Int64, now: Ticks)
    requires id >= 0 && (id + 1) * RecordSize <= |file|
    requires file[id * RecordSize .. (id + 1) * RecordSize] == Zeros(RecordSize)
    ensures Validate(file, Token(id, key), now) == if id == 0 && key == 0 && now == 0 then Value("0") else Null
  {
    ParseTokenOfToken(id, key);
    assert Validate(file, Token(id, key), now) == CheckRecord(file, id, key, now);
    ZeroSlotOutcome(file, id, key, now);
  }

  lemma ZeroSlotOutcome(file: seq<bv8>, id: Int32, key: Int64, now: Ticks)
    requires id >= 0 && (id + 1) * RecordSize <= |file|
    requires file[id * RecordSize .. (id + 1) * RecordSize] == Zeros(RecordSize)
    ensures CheckRecord(file, id, key, now) == if id == 0 && key == 0 && now == 0 then Value("0") else Null
  {
    var position := id * RecordSize;
    assert Wrap64(Wrap64(id + 1) * RecordSize) == position + RecordSize;
    assert Wrap64(position) == position;
    assert ReadAt(file, position, RecordSize) == Zeros(RecordSize);
    ZeroFields();
    FromBinaryZero();
  }

  /** An all-zero slot holds key 0, id 0 and expiration word 0. */
  lemma ZeroFields()
    ensures DecodeFields(Zeros(RecordSize), 3) == [0, 0, 0]
  {
    assert EncodeInt64(0) == Zeros(FieldSize);
    assert EncodeFields([0, 0, 0]) == Zeros(MinRecordSize);
    assert Zeros(RecordSize) == EncodeFields([0, 0, 0]) + Zeros(RecordSize - MinRecordSize);
    DecodeEncodeFields([0, 0, 0], Zeros(RecordSize - MinRecordSize));
  }

  /** One field written over the zero tail of a record: the bytes before it stay, the tail after it stays zero. */
  lemma FieldWritten(before: seq<bv8>, after: seq<bv8>, at: nat, field: seq<bv8>)
    requires |before| == RecordSize && at + FieldSize <= RecordSize && |field| == FieldSize
    requires before[at..] == Zeros(RecordSize - at)
    requires after == before[..at] + field + before[at + FieldSize..]
    ensures after[..at] == before[..at] && after[at..at + FieldSize] == field
    ensures after[at + FieldSize..] == Zeros(RecordSize - at - FieldSize)
  {
  }

  /**
   * The record AuthtDbSession.Authenticate builds: a fresh zeroed 1024-byte array, written through a cursor
   * with the key, the id and the expiration word in that order.
   */
  method BuildRecord(key: Int64, id: Int64, expiration: Ticks) returns (record: array<bv8>)
    ensures fresh(record)
    ensures record[..] == Record(key, id, expiration)
  {
    record := new bv8[RecordSize](_ => 0);
    var writer := new Writer(record);
    ghost var b0 := record[..];
    assert b0[0..] == Zeros(RecordSize);
    writer.Write(key);
    ghost var b1 := record[..];
    FieldWritten(b0, b1, 0, EncodeInt64(key));
    writer.Write(id);
    ghost var b2 := record[..];
    FieldWritten(b1, b2, FieldSize, EncodeInt64(id));
    writer.Write(ToBinary(expiration));
    ghost var b3 := record[..];
    FieldWritten(b2, b3, 2 * FieldSize, EncodeInt64(ToBinary(expiration)));
    assert b3[..FieldSize] == b2[..2 * FieldSize][..FieldSize] == b2[..FieldSize];
    RecordBytes(b3, key, id, expiration);
  }

  /**
   * AuthtDbSession.ValidateToken's read: the slot at `position` read into a fresh zeroed 1024-byte
   * array, then three `long`s read through a cursor from its start.
   */
  method ReadRecord(file: seq<bv8>, position: nat) returns (recKey: Int64, recId: Int64, word: Int64)
    ensures [recKey, recId, word] == DecodeFields(ReadAt(file, position, RecordSize), 3)
  {
    var record := new bv8[RecordSize](_ => 0);
    var count := ReadInto(file, position, record);
    assert record[..] == ReadAt(file, position, RecordSize);
    var reader := new Reader(record);
    recKey := reader.ReadInt64();
    recId := reader.ReadInt64();
    word := reader.ReadInt64();
    ReadFields(record[..]);
  }

  /** Stream.Read into dst: copies what the file has from `position` on, at most dst.Length bytes, and returns the count. */
  method ReadInto(file: seq<bv8>, position: nat, dst: array<bv8>) returns (count: nat)
    modifies dst
    ensures count == if position >= |file| then 0
                     else if position + dst.Length <= |file| then dst.Length
                     else |file| - position
    ensures forall i :: 0 <= i < dst.Length ==> dst[i] == if i < count then file[position + i] else old(dst[i])
  {
    count := if position >= |file| then 0
             else if position + dst.Length <= |file| then dst.Length
             else |file| - position;
    forall i | 0 <= i < count {
      dst[i] := file[position + i];
    }
  }

  /** The file ends on a slot boundary, as every write Authenticate makes is a whole slot at a slot boundary. */
  ghost predicate WholeSlots(file: seq<bv8>)
  {
    |file| % RecordSize == 0
  }

  /** The slot position of an `int` id needs no wrapping: it is negative exactly for a negative id. */
  lemma SlotPosition(id: Int32)
    ensures Wrap64(id * RecordSize) == id * RecordSize
    ensures id * RecordSize < 0 <==> id < 0
  {
  }

  /** Issuing into a file of whole slots leaves a file of whole slots. */
  lemma IssueKeepsWholeSlots(file: seq<bv8>, id: Int32, key: Int64, expiration: Ticks)
    requires WholeSlots(file) && id >= 0
    ensures WholeSlots(Issue(file, id, key, expiration))
  {
  }

  /**
   * In a file of whole slots, the bounds check on a non-negative `int` id
   * rejects exactly the ids whose slot starts at or past the end of the
   * file: no slot is ever read partly from the file.
   */
  lemma BoundsCheckOnWholeSlots(file: seq<bv8>, id: Int32)
    requires WholeSlots(file) && id >= 0
    ensures Wrap64(Wrap64(id + 1) * RecordSize) > |file| <==> id * RecordSize >= |file|
  {
    var k := |file| / RecordSize;
    assert |file| == k * RecordSize;
    assert Wrap64(Wrap64(id + 1) * RecordSize) == (id + 1) * RecordSize;
    if id < k {
      assert (id + 1) * RecordSize <= k * RecordSize;
    } else {
      assert id * RecordSize >= k * RecordSize;
    }
  }

  class AuthtDbSession {
    var file: seq<bv8>
    var nextId: Int32

    /** The file is a whole number of slots. */
    ghost predicate Valid()
      reads this
    {
      WholeSlots(file)
    }

    /** The temporary database file starts empty. */
    constructor ()
      ensures file == [] && nextId == 0 && Valid()
    {
      file := [];
      nextId := 0;
    }

    /**
     * Issues the next id, takes the key from 8 random bytes, writes the
     * record at the id's slot and returns "<id>*<key>". Once the counter has
     * wrapped to a negative id, setting the position throws and nothing is
     * written.
     */
    method Authenticate(username: string, password: string, random: seq<bv8>, now: Ticks) returns (r: Outcome<string>)
      requires |random| == FieldSize && CanIssueAt(now)
      requires Valid()
      modifies this
      ensures Valid()
      ensures nextId == Increment32(old(nextId))
      ensures nextId < 0 ==> r == Throws(NegativePosition) && file == old(file)
      ensures nextId >= 0 ==>
        && r == Value(Token(nextId, DecodeInt64(random)))
        && file == Issue(old(file), nextId, DecodeInt64(random), now + Lifetime)
    {
      nextId := Increment32(nextId);
      var id: Int64 := nextId;
      var key := DecodeInt64(random);
      var expiration: Ticks := now + Lifetime;
      var record := BuildRecord(key, id, expiration);
      var position := Wrap64(id * RecordSize);
      SlotPosition(nextId);
      if position < 0 {
        return Throws(NegativePosition);
      }
      IssueKeepsWholeSlots(file, nextId, key, expiration);
      file := WriteAt(file, position, record[..]);
      r := Value(Token(id, key));
    }

    /** Checks a token against the file; the file is not changed. */
    method ValidateToken(token: string, now: Ticks) returns (r: Outcome<string>)
      ensures r == Validate(file, token, now)
    {
      var pair := Split(token, '*');
      if |pair| != 2 {
        return Null;
      }
      var id := ParseInt64(pair[0]);
      if id.None? {
        return Null;
      }
      var key := ParseInt64(pair[1]);
      if key.None? {
        return Null;
      }
      if Wrap64(Wrap64(id.value + 1) * RecordSize) > |file| {
        return Null;
      }
      var position := Wrap64(id.value * RecordSize);
      if position < 0 {
        return Throws(NegativePosition);
      }
      var recKey, recId, word := ReadRecord(file, position);
      var expiration := FromBinary(word);
      if expiration.None? {
        return Throws(InvalidDateData);
      }
      if recKey != key.value {
        return Null;
      }
      if recId != id.value {
        return Null;
      }
      if expiration.value < now {
        return Null;
      }
      return Value(FormatInt(recId));
    }
  }

  lemma RecordBytes(b: seq<bv8>, key: Int64, id: Int64, expiration: Ticks)
    requires |b| == RecordSize
    requires b[..FieldSize] == EncodeInt64(key)
    requires b[FieldSize..2 * FieldSize] == EncodeInt64(id)
    requires b[2 * FieldSize..MinRecordSize] == EncodeInt64(ToBinary(expiration))
    requires b[MinRecordSize..] == Zeros(RecordSize - MinRecordSize)
    ensures b == Record(key, id, expiration)
  {
    var w := ToBinary(expiration);
    assert [key, id, w][1..] == [id, w] && [id, w][1..] == [w] && [w][1..] == [];
    assert EncodeFields([w]) == EncodeInt64(w) + EncodeFields([]);
    assert EncodeFields([id, w]) == EncodeInt64(id) + EncodeFields([w]);
    assert EncodeFields([key, id, w]) == EncodeInt64(key) + EncodeFields([id, w]);
    assert b[..MinRecordSize] == b[..FieldSize] + b[FieldSize..2 * FieldSize] + b[2 * FieldSize..MinRecordSize];
    assert b == b[..MinRecordSize] + b[MinRecordSize..];
  }

  lemma ReadFields(b: seq<bv8>)
    requires |b| == RecordSize
    ensures DecodeFields(b, 3) == [DecodeInt64(b[0..8]), DecodeInt64(b[8..16]), DecodeInt64(b[16..24])]
  {
    DecodeFieldAt(b, 3, 0);
    DecodeFieldAt(b, 3, 1);
    DecodeFieldAt(b, 3, 2);
  }

  /** What the three validations of the first session yield on the file its Authenticate writes. */
  lemma FirstSessionOutcomes(k: Int64, otherKey: Int64, expiration: Ticks, now: Ticks)
    requires otherKey != k && now <= expiration
    ensures DecodeInt64(EncodeInt64(k)) == k && Token(1, k) == "1*" + FormatInt(k)
    ensures Validate(Issue([], 1, k, expiration), Token(1, k), now) == Value("1")
    ensures Validate(Issue([], 1, k, expiration), Token(1, otherKey), now) == Null
    ensures Validate(Issue([], 1, k, expiration), Token(999, 0), now) == Null
  {
    DecodeEncode(k);
    FormatOne();
    IssuedTokenValidates([], 1, k, expiration, now);
    WrongKeyRejected([], 1, k, otherKey, expiration, now);
    BeyondEndRejected(Issue([], 1, k, expiration), 999, 0, now);
  }

  /**
   * A fresh backend whose first random key is K: the token "1*K" is accepted
   * as id 1, the same id with any other key is null, and "999*0" names a
   * slot past the end of the file and is null.
   */
  method FirstSessionScenario(k: Int64, otherKey: Int64, now: Ticks)
    returns (token: string, accepted: Outcome<string>, wrongKey: Outcome<string>, unknownId: Outcome<string>)
    requires CanIssueAt(now) && otherKey != k
    ensures token == "1*" + FormatInt(k)
    ensures accepted == Value("1") && wrongKey == Null && unknownId == Null
  {
    FirstSessionOutcomes(k, otherKey, now + Lifetime, now);
    var session := new AuthtDbSession();
    var r := session.Authenticate("alice", "pw1", EncodeInt64(k), now);
    token := r.value;
    accepted := session.ValidateToken(token, now);
    wrongKey := session.ValidateToken(Token(1, otherKey), now);
    unknownId := session.ValidateToken(Token(999, 0), now);
  }
}
