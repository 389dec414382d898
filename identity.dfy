/**
 * Repository identity (`RepositoryID` in src/filesystem/repository.rs): a UUID,
 * the caller's name and a hex signature of `uuid ":" name ":" payload`.
 *
 * The UUID is an input (its random generation is not modelled) and BLAKE3 is
 * the parameter `hash`, an arbitrary function from bytes to 32-byte digests.
 */
module Identity {
  import opened Wrappers
  import opened Text

  type Uuid = s: seq<byte> | |s| == 16 witness seq(16, _ => 0 as byte)

  type Digest = s: seq<byte> | |s| == 32 witness seq(32, _ => 0 as byte)

  /** `Display` of a UUID: five lowercase hex groups of 8-4-4-4-12 digits joined by hyphens. */
  function UuidToString(u: Uuid): (s: string)
    ensures |s| == 36
  {
    ToHex(u[..4]) + "-" + ToHex(u[4..6]) + "-" + ToHex(u[6..8]) + "-" + ToHex(u[8..10]) + "-" + ToHex(u[10..])
  }

  /** The five groups of a UUID's string form are the hex of its five byte ranges, between hyphens. */
  lemma UuidGroups(u: Uuid)
    ensures var s := UuidToString(u);
      && s[..8] == ToHex(u[..4]) && s[9..13] == ToHex(u[4..6]) && s[14..18] == ToHex(u[6..8])
      && s[19..23] == ToHex(u[8..10]) && s[24..] == ToHex(u[10..])
      && s[8] == '-' && s[13] == '-' && s[18] == '-' && s[23] == '-'
  {
    HyphenatedGroups(ToHex(u[..4]), ToHex(u[4..6]), ToHex(u[6..8]), ToHex(u[8..10]), ToHex(u[10..]));
  }

  /** Where the groups of an 8-4-4-4-12 hyphenated text sit. */
  lemma HyphenatedGroups(g0: string, g1: string, g2: string, g3: string, g4: string)
    requires |g0| == 8 && |g1| == 4 && |g2| == 4 && |g3| == 4 && |g4| == 12
    ensures var s := g0 + "-" + g1 + "-" + g2 + "-" + g3 + "-" + g4;
      && s[..8] == g0 && s[9..13] == g1 && s[14..18] == g2 && s[19..23] == g3 && s[24..] == g4
      && s[8] == '-' && s[13] == '-' && s[18] == '-' && s[23] == '-'
  {
    var p1 := g0 + "-";
    var p2 := p1 + g1 + "-";
    var p3 := p2 + g2 + "-";
    var p4 := p3 + g3 + "-";
    var s := p4 + g4;
    assert s[..24] == p4 && s[24..] == g4;
    assert p4[..23] == p3 + g3 && (p3 + g3)[19..] == g3 && p4[23] == '-';
    assert p3[..18] == p2 + g2 && (p2 + g2)[14..] == g2 && p3[18] == '-';
    assert p2[..13] == p1 + g1 && (p1 + g1)[9..] == g1 && p2[13] == '-';
    assert p1[..8] == g0 && p1[8] == '-';
  }

  /** A UUID's string form is lowercase hex apart from its four hyphens, so it has no colon. */
  lemma UuidShape(u: Uuid)
    ensures var s := UuidToString(u);
      && ':' !in s
      && forall i :: 0 <= i < 36 && i != 8 && i != 13 && i != 18 && i != 23 ==> IsHexChar(s[i])
  {
    var s := UuidToString(u);
    UuidGroups(u);
    forall i | 0 <= i < 36 && i != 8 && i != 13 && i != 18 && i != 23 ensures IsHexChar(s[i]) {
      if i < 8 { assert s[i] == s[..8][i]; }
      else if i < 13 { assert s[i] == s[9..13][i - 9]; }
      else if i < 18 { assert s[i] == s[14..18][i - 14]; }
      else if i < 23 { assert s[i] == s[19..23][i - 19]; }
      else { assert s[i] == s[24..][i - 24]; }
    }
  }

  /** Distinct UUIDs have distinct string forms. */
  lemma UuidToStringInjective(a: Uuid, b: Uuid)
    ensures UuidToString(a) == UuidToString(b) ==> a == b
  {
    if UuidToString(a) == UuidToString(b) {
      UuidGroups(a);
      UuidGroups(b);
      ToHexInjective(a[..4], b[..4]);
      ToHexInjective(a[4..6], b[4..6]);
      ToHexInjective(a[6..8], b[6..8]);
      ToHexInjective(a[8..10], b[8..10]);
      ToHexInjective(a[10..], b[10..]);
      forall i | 0 <= i < 16 ensures a[i] == b[i] {
        if i < 4 { assert a[i] == a[..4][i] && b[i] == b[..4][i]; }
        else if i < 6 { assert a[i] == a[4..6][i - 4] && b[i] == b[4..6][i - 4]; }
        else if i < 8 { assert a[i] == a[6..8][i - 6] && b[i] == b[6..8][i - 6]; }
        else if i < 10 { assert a[i] == a[8..10][i - 8] && b[i] == b[8..10][i - 8]; }
        else { assert a[i] == a[10..][i - 10] && b[i] == b[10..][i - 10]; }
      }
    }
  }

  /** The text whose UTF-8 bytes are signed: `uuid ":" name ":" payload`. */
  function SignPreimage(uuid: Uuid, name: string, payload: string): (s: string)
    ensures Before(s, ':') == UuidToString(uuid)
  {
    var u := UuidToString(uuid);
    var rest := name + ":" + payload;
    UuidShape(uuid);
    BeforeSeparated(u, ':', rest);
    assert u + [':'] + rest == u + ":" + name + ":" + payload;
    u + ":" + name + ":" + payload
  }

  /** After the UUID's 36 characters come a colon, the name, a colon and the payload. */
  lemma SignPreimageParts(uuid: Uuid, name: string, payload: string)
    ensures var s := SignPreimage(uuid, name, payload);
      && |s| == 36 + 1 + |name| + 1 + |payload|
      && s[36] == ':' && s[37..] == name + ":" + payload
  {
    var u := UuidToString(uuid);
    assert SignPreimage(uuid, name, payload) == u + (":" + (name + ":" + payload));
  }

  /** `RepositoryID::sign`: the digest of the preimage's bytes. */
  function Sign(hash: seq<byte> -> Digest, uuid: Uuid, name: string, payload: string): (d: Digest)
    ensures d == hash(Utf8(UuidToString(uuid)) + [':' as int as byte] + Utf8(name) + [':' as int as byte] + Utf8(payload))
  {
    SignPreimageBytes(uuid, name, payload);
    hash(Utf8(SignPreimage(uuid, name, payload)))
  }

  /** The preimage's bytes are the parts' bytes with a single 0x3A between them. */
  lemma SignPreimageBytes(uuid: Uuid, name: string, payload: string)
    ensures Utf8(SignPreimage(uuid, name, payload))
         == Utf8(UuidToString(uuid)) + [':' as int as byte] + Utf8(name) + [':' as int as byte] + Utf8(payload)
  {
    var u := UuidToString(uuid);
    Utf8Append(u + ":" + name + ":", payload);
    Utf8Append(u + ":" + name, ":");
    Utf8Append(u + ":", name);
    Utf8Append(u, ":");
    assert Utf8(":") == [':' as int as byte];
  }

  /** The string form of a UUID is 36 ASCII bytes. */
  lemma UuidBytes(uuid: Uuid)
    ensures |Utf8(UuidToString(uuid))| == 36
  {
    var s := UuidToString(uuid);
    UuidShape(uuid);
    UuidGroups(uuid);
    Utf8Ascii(s);
  }

  // ---------------------------------------------------------------------
  // What the preimage does and does not pin down

  /** Equal preimages come from the same UUID. */
  lemma PreimageDeterminesUuid(u1: Uuid, n1: string, p1: string, u2: Uuid, n2: string, p2: string)
    ensures SignPreimage(u1, n1, p1) == SignPreimage(u2, n2, p2) ==> u1 == u2
  {
    UuidToStringInjective(u1, u2);
  }

  /** For names without a colon, the preimage determines the name and the payload. */
  lemma PreimageUnambiguous(u: Uuid, n1: string, p1: string, n2: string, p2: string)
    requires ':' !in n1 && ':' !in n2
    ensures SignPreimage(u, n1, p1) == SignPreimage(u, n2, p2) ==> n1 == n2 && p1 == p2
  {
    if SignPreimage(u, n1, p1) == SignPreimage(u, n2, p2) {
      var r1 := n1 + ":" + p1;
      var r2 := n2 + ":" + p2;
      SignPreimageParts(u, n1, p1);
      SignPreimageParts(u, n2, p2);
      BeforeSeparated(n1, ':', p1);
      BeforeSeparated(n2, ':', p2);
      assert n1 + [':'] + p1 == r1 && n2 + [':'] + p2 == r2;
      assert r1[|n1| + 1..] == p1 && r2[|n2| + 1..] == p2;
    }
  }

  /** A colon moved across the name/payload border gives the same preimage, hence the same sign. */
  lemma PreimageAmbiguousAcrossColon(hash: seq<byte> -> Digest, u: Uuid, n: string, m: string, p: string)
    ensures SignPreimage(u, n + ":" + m, p) == SignPreimage(u, n, m + ":" + p)
    ensures Sign(hash, u, n + ":" + m, p) == Sign(hash, u, n, m + ":" + p)
  {
    var s := UuidToString(u) + ":" + (n + ":" + m) + ":" + p;
    assert s == UuidToString(u) + ":" + n + ":" + (m + ":" + p);
  }

  // ---------------------------------------------------------------------
  // RepositoryID

  /** The identity record: exactly the fields written to the marker file. */
  datatype RepositoryID = RepositoryID(uuid: Uuid, name: string, sign: string)

  /** `RepositoryID::new` for a given UUID: name verbatim, sign the hex of `sign(uuid, name, payload)`. */
  function NewRepositoryID(hash: seq<byte> -> Digest, uuid: Uuid, name: string, payload: string): (id: RepositoryID)
    ensures id.uuid == uuid && id.name == name
    ensures |id.sign| == 64 && IsLowerHex(id.sign)
    ensures FromHex(id.sign) == Some(Sign(hash, uuid, name, payload))
  {
    var d := Sign(hash, uuid, name, payload);
    FromHexToHex(d);
    RepositoryID(uuid, name, ToHex(d))
  }

  /** Whether an identity's sign is the one its fields and `payload` produce. */
  predicate Verifies(hash: seq<byte> -> Digest, id: RepositoryID, payload: string) {
    id.sign == ToHex(Sign(hash, id.uuid, id.name, payload))
  }

  /** A freshly built identity verifies against the payload it was built with. */
  lemma NewVerifies(hash: seq<byte> -> Digest, uuid: Uuid, name: string, payload: string)
    ensures Verifies(hash, NewRepositoryID(hash, uuid, name, payload), payload)
  {
  }

  /** The bytes hashed determine the payload: a different payload gives different bytes. */
  lemma PreimageBytesDeterminePayload(uuid: Uuid, name: string, payload: string, other: string)
    ensures Utf8(SignPreimage(uuid, name, payload)) == Utf8(SignPreimage(uuid, name, other)) ==> payload == other
  {
    if Utf8(SignPreimage(uuid, name, payload)) == Utf8(SignPreimage(uuid, name, other)) {
      Utf8Injective(SignPreimage(uuid, name, payload), SignPreimage(uuid, name, other));
      SignPreimageParts(uuid, name, payload);
      SignPreimageParts(uuid, name, other);
      var r1, r2 := name + ":" + payload, name + ":" + other;
      assert r1[|name| + 1..] == payload && r2[|name| + 1..] == other;
    }
  }

  /** With the payload fixed, the bytes hashed determine the name, colons or not. */
  lemma PreimageBytesDetermineName(uuid: Uuid, name: string, other: string, payload: string)
    ensures Utf8(SignPreimage(uuid, name, payload)) == Utf8(SignPreimage(uuid, other, payload)) ==> name == other
  {
    if Utf8(SignPreimage(uuid, name, payload)) == Utf8(SignPreimage(uuid, other, payload)) {
      Utf8Injective(SignPreimage(uuid, name, payload), SignPreimage(uuid, other, payload));
      SignPreimageParts(uuid, name, payload);
      SignPreimageParts(uuid, other, payload);
      var r1, r2 := name + ":" + payload, other + ":" + payload;
      assert r1[..|name|] == name && r2[..|other|] == other;
    }
  }

  /** The bytes hashed determine the UUID, whatever the names and payloads. */
  lemma PreimageBytesDetermineUuid(u1: Uuid, n1: string, p1: string, u2: Uuid, n2: string, p2: string)
    ensures Utf8(SignPreimage(u1, n1, p1)) == Utf8(SignPreimage(u2, n2, p2)) ==> u1 == u2
  {
    if Utf8(SignPreimage(u1, n1, p1)) == Utf8(SignPreimage(u2, n2, p2)) {
      Utf8Injective(SignPreimage(u1, n1, p1), SignPreimage(u2, n2, p2));
      PreimageDeterminesUuid(u1, n1, p1, u2, n2, p2);
    }
  }

  /**
   * A payload other than the one an identity was built with does not verify,
   * provided `hash` does not collide on the two preimages.
   */
  lemma WrongPayloadRejected(hash: seq<byte> -> Digest, uuid: Uuid, name: string, payload: string, other: string)
    requires payload != other
    requires var a, b := Utf8(SignPreimage(uuid, name, payload)), Utf8(SignPreimage(uuid, name, other));
      a != b ==> hash(a) != hash(b)
    ensures !Verifies(hash, NewRepositoryID(hash, uuid, name, payload), other)
  {
    PreimageBytesDeterminePayload(uuid, name, payload, other);
    ToHexInjective(Sign(hash, uuid, name, payload), Sign(hash, uuid, name, other));
  }

  /**
   * An identity whose name was edited does not verify against the original payload,
   * provided `hash` does not collide on the two preimages.
   */
  lemma RenamedIdentityRejected(hash: seq<byte> -> Digest, uuid: Uuid, name: string, payload: string, other: string)
    requires name != other
    requires var a, b := Utf8(SignPreimage(uuid, name, payload)), Utf8(SignPreimage(uuid, other, payload));
      a != b ==> hash(a) != hash(b)
    ensures !Verifies(hash, NewRepositoryID(hash, uuid, name, payload).(name := other), payload)
  {
    PreimageBytesDetermineName(uuid, name, other, payload);
    ToHexInjective(Sign(hash, uuid, name, payload), Sign(hash, uuid, other, payload));
  }

  /**
   * An identity whose UUID was replaced does not verify against the original payload,
   * provided `hash` does not collide on the two preimages.
   */
  lemma ReassignedIdentityRejected(hash: seq<byte> -> Digest, uuid: Uuid, name: string, payload: string, other: Uuid)
    requires uuid != other
    requires var a, b := Utf8(SignPreimage(uuid, name, payload)), Utf8(SignPreimage(other, name, payload));
      a != b ==> hash(a) != hash(b)
    ensures !Verifies(hash, NewRepositoryID(hash, uuid, name, payload).(uuid := other), payload)
  {
    PreimageBytesDetermineUuid(uuid, name, payload, other, name, payload);
    ToHexInjective(Sign(hash, uuid, name, payload), Sign(hash, other, name, payload));
  }

  /** The payload is not kept: two payloads with the same digest give the same identity. */
  lemma PayloadNotRetained(hash: seq<byte> -> Digest, uuid: Uuid, name: string, p: string, q: string)
    requires Sign(hash, uuid, name, p) == Sign(hash, uuid, name, q)
    ensures NewRepositoryID(hash, uuid, name, p) == NewRepositoryID(hash, uuid, name, q)
  {
  }
}
