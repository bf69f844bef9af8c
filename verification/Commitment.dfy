/** The oracle commitment: a hash over five NUL-separated parts, two of which
    may themselves hold NUL octets. */
module OracleCommitment {
  import opened Common

  /** A field of the caller's record: text, a byte array, or anything else. */
  datatype Field = Text(text: JsString) | Octets(octets: Bytes) | Other

  datatype Input =
    | NotARecord
    | Record(instanceId: Field, problemPackageSha256: Field, nonce: Field, oracleBytes: Field, commitment: Field)

  datatype Parts = Parts(instanceId: JsString, digest: JsString, nonce: Bytes, oracle: Bytes)

  type Reasons = seq<string>

  predicate IsLowerAlnum(u: CodeUnit) { 0x61 <= u <= 0x7a || 0x30 <= u <= 0x39 }

  predicate IsInstanceIdUnit(u: CodeUnit) { IsLowerAlnum(u) || u == 0x2e || u == 0x5f || u == 0x2d }

  predicate IsInstanceId(s: JsString) { s != [] && forall u | u in s :: IsInstanceIdUnit(u) }

  predicate IsLowerHex64(s: JsString) { |s| == 64 && forall u | u in s :: IsLowerHexUnit(u) }

  function NonceReasons(f: Field): Reasons {
    if !f.Octets? then ["nonce_not_bytes"] else if |f.octets| != 32 then ["nonce_length"] else []
  }

  function OracleReasons(f: Field): Reasons {
    if !f.Octets? then ["oracle_bytes_not_bytes"] else if f.octets == [] then ["oracle_bytes_empty"] else []
  }

  /** `validateOracleCommitmentParts` */
  function ValidateParts(input: Input): (r: Result<Parts, Reasons>)
    ensures r.Ok? ==> ValidParts(r.value)
  {
    if input.NotARecord? then Err(["malformed_commitment_input"])
    else
      var idOk := input.instanceId.Text? && IsInstanceId(input.instanceId.text);
      var digestOk := input.problemPackageSha256.Text? && IsLowerHex64(input.problemPackageSha256.text);
      var reasons := (if idOk then [] else ["invalid_instance_id"])
                   + (if digestOk then [] else ["invalid_problem_package_sha256"])
                   + NonceReasons(input.nonce) + OracleReasons(input.oracleBytes);
      if reasons != [] then Err(reasons)
      else
        assert idOk && digestOk && NonceReasons(input.nonce) == [] && OracleReasons(input.oracleBytes) == [];
        Ok(Parts(input.instanceId.text, input.problemPackageSha256.text, input.nonce.octets, input.oracleBytes.octets))
  }

  predicate ValidParts(p: Parts) {
    IsInstanceId(p.instanceId) && IsLowerHex64(p.digest) && |p.nonce| == 32 && p.oracle != []
  }

  /** `Buffer.from(s, "ascii")` on the units these parts may hold. */
  function Ascii(s: JsString): (octets: Bytes)
    requires forall u | u in s :: u < 0x80
    ensures |octets| == |s| && forall i | 0 <= i < |s| :: octets[i] == s[i]
  {
    assert forall i | 0 <= i < |s| :: s[i] in s;
    seq(|s|, i requires 0 <= i < |s| => var octet: Byte := s[i]; octet)
  }

  /** The octets of `TSEI-IA-COMMIT-v0`. */
  const DOMAIN: Bytes :=
    [0x54, 0x53, 0x45, 0x49, 0x2d, 0x49, 0x41, 0x2d, 0x43, 0x4f, 0x4d, 0x4d, 0x49, 0x54, 0x2d, 0x76, 0x30]

  const SEPARATOR: Bytes := [0]

  /** `commitmentPreimage` */
  function Preimage(p: Parts): Bytes
    requires ValidParts(p)
  {
    DOMAIN + SEPARATOR + Ascii(p.instanceId) + SEPARATOR + Ascii(p.digest) + SEPARATOR + p.nonce + SEPARATOR + p.oracle
  }

  /** Everything after the instance id and its separator. */
  function Tail(p: Parts): Bytes
    requires ValidParts(p)
  {
    Ascii(p.digest) + (SEPARATOR + (p.nonce + (SEPARATOR + p.oracle)))
  }

  lemma TailInjective(p: Parts, q: Parts)
    requires ValidParts(p) && ValidParts(q) && Tail(p) == Tail(q)
    ensures p.digest == q.digest && p.nonce == q.nonce && p.oracle == q.oracle
  {
    assert Ascii(p.digest) == Tail(p)[..64] && Ascii(q.digest) == Tail(q)[..64];
    assert p.digest == Ascii(p.digest) && q.digest == Ascii(q.digest);
    assert p.nonce == Tail(p)[65..97] && q.nonce == Tail(q)[65..97];
    assert p.oracle == Tail(p)[98..] && q.oracle == Tail(q)[98..];
  }

  /** A NUL ends the first of two NUL-free prefixes where it ends the other. */
  lemma FirstSeparator(a: Bytes, b: Bytes, s: Bytes, t: Bytes)
    requires 0 !in a && 0 !in b && a + SEPARATOR + s == b + SEPARATOR + t
    ensures a == b && s == t
  {
    FirstZero(a, s);
    FirstZero(b, t);
    var whole := a + SEPARATOR + s;
    assert |a| == |b|;
    assert a == whole[..|a|] && b == whole[..|b|];
    assert s == whole[|a| + 1..] && t == whole[|b| + 1..];
  }

  lemma FirstZero(a: Bytes, s: Bytes)
    requires 0 !in a
    ensures (a + SEPARATOR + s)[|a|] == 0
    ensures forall i | 0 <= i < |a| :: (a + SEPARATOR + s)[i] != 0
  {
  }

  lemma PreimageShape(p: Parts)
    requires ValidParts(p)
    ensures Preimage(p) == (DOMAIN + SEPARATOR) + (Ascii(p.instanceId) + SEPARATOR + Tail(p))
    ensures 0 !in Ascii(p.instanceId)
  {
    var id, digest := Ascii(p.instanceId), Ascii(p.digest);
    assert forall i | 0 <= i < |id| :: p.instanceId[i] in p.instanceId;
    hide Ascii;
    assert Preimage(p) == (DOMAIN + SEPARATOR) + (id + SEPARATOR + Tail(p));
  }

  /** The separators frame the parts unambiguously, although nonce and oracle
      may contain the separator octet: no two openings share a preimage. */
  lemma PreimageInjective(p: Parts, q: Parts)
    requires ValidParts(p) && ValidParts(q) && Preimage(p) == Preimage(q)
    ensures p == q
  {
    PreimageShape(p);
    PreimageShape(q);
    var head, a, b := DOMAIN + SEPARATOR, Ascii(p.instanceId), Ascii(q.instanceId);
    hide Preimage;
    assert a + SEPARATOR + Tail(p) == Preimage(p)[|head|..] == Preimage(q)[|head|..] == b + SEPARATOR + Tail(q);
    hide Tail, Ascii;
    FirstSeparator(a, b, Tail(p), Tail(q));
    TailInjective(p, q);
    AsciiInjective(p.instanceId, q.instanceId);
  }

  lemma AsciiInjective(s: JsString, t: JsString)
    requires (forall u | u in s :: u < 0x80) && (forall u | u in t :: u < 0x80) && Ascii(s) == Ascii(t)
    ensures s == t
  {
    assert s == Ascii(s) && t == Ascii(t);
  }

  /** Lower-case hexadecimal, two digits an octet. */
  function Hex(octets: Bytes): (s: JsString)
    ensures |s| == 2 * |octets| && forall u | u in s :: IsLowerHexUnit(u)
  {
    if octets == [] then [] else [HexUnit(octets[0] / 16), HexUnit(octets[0] % 16)] + Hex(octets[1..])
  }

  lemma {:induction false} HexInjective(a: Bytes, b: Bytes)
    requires Hex(a) == Hex(b)
    ensures a == b
  {
    if a != [] && b != [] {
      assert Hex(a)[0] == HexUnit(a[0] / 16) && Hex(a)[1] == HexUnit(a[0] % 16) && Hex(a)[2..] == Hex(a[1..]);
      assert Hex(b)[0] == HexUnit(b[0] / 16) && Hex(b)[1] == HexUnit(b[0] % 16) && Hex(b)[2..] == Hex(b[1..]);
      HexInjective(a[1..], b[1..]);
      assert a == [a[0]] + a[1..] && b == [b[0]] + b[1..];
    }
  }

  /** `computeOracleCommitment` */
  function Compute(H: HashFunction, input: Input): (r: Result<JsString, Reasons>)
    ensures r.Ok? <==> ValidateParts(input).Ok?
    ensures r.Ok? ==> IsLowerHex64(r.value)
  {
    match ValidateParts(input)
    case Err(reasons) => Err(reasons)
    case Ok(parts) => Ok(Hex(H(Preimage(parts))))
  }

  /** `verifyOracleCommitment`: the reasons for refusal, none on success. */
  function Verify(H: HashFunction, input: Input): Reasons {
    if input.NotARecord? then ["malformed_commitment_input"]
    else
      match Compute(H, input)
      case Err(reasons) => reasons
      case Ok(computed) =>
        if !input.commitment.Text? || !IsLowerHex64(input.commitment.text) then ["invalid_commitment"]
        else if input.commitment.text != computed then ["commitment_mismatch"]
        else []
  }

  /** Completeness: the computed commitment of every valid input verifies. */
  lemma ComputedCommitmentVerifies(H: HashFunction, input: Input)
    requires Compute(H, input).Ok?
    ensures Verify(H, input.(commitment := Text(Compute(H, input).value))) == []
  {
    var filled := input.(commitment := Text(Compute(H, input).value));
    assert ValidateParts(filled) == ValidateParts(input);
  }

  /** The input that opens a commitment with given parts. */
  function Opening(p: Parts, commitment: Field): Input {
    Record(Text(p.instanceId), Text(p.digest), Octets(p.nonce), Octets(p.oracle), commitment)
  }

  /** Validation undoes `Opening`, and on nothing but valid parts. */
  lemma ValidatedExactly(input: Input, p: Parts)
    ensures ValidateParts(input) == Ok(p) <==> input.Record? && input == Opening(p, input.commitment) && ValidParts(p)
  {
  }

  /** Verification succeeds exactly for valid parts whose hash, in lower-case
      hexadecimal, is the commitment given. */
  lemma VerifiedExactly(H: HashFunction, input: Input)
    ensures Verify(H, input) == []
       <==> && ValidateParts(input).Ok?
            && input.commitment == Text(Hex(H(Preimage(ValidateParts(input).value))))
  {
    RefusalHasReasons(input);
  }

  /** The openings of a commitment: exactly the valid parts whose preimage hashes
      to it, in lower-case hexadecimal. */
  lemma OpeningsExactly(H: HashFunction, p: Parts, commitment: JsString)
    ensures Verify(H, Opening(p, Text(commitment))) == [] <==> ValidParts(p) && commitment == Hex(H(Preimage(p)))
  {
    var input := Opening(p, Text(commitment));
    VerifiedExactly(H, input);
    ValidatedExactly(input, p);
    hide ValidateParts, ValidParts, Preimage;
    if ValidateParts(input).Ok? { ValidatedExactly(input, ValidateParts(input).value); }
  }

  /** Binding: a commitment that verifies for two inputs has one opening, or the
      two preimages are a collision of the hash. */
  lemma CommitmentBinds(H: HashFunction, a: Input, b: Input)
    requires Verify(H, a) == [] && Verify(H, b) == [] && a.commitment == b.commitment
    ensures ValidateParts(a).Ok? && ValidateParts(b).Ok?
    ensures var p, q := ValidateParts(a).value, ValidateParts(b).value;
            p == q || IsCollision(H, (Preimage(p), Preimage(q)))
  {
    RefusalHasReasons(a);
    RefusalHasReasons(b);
    var p, q := ValidateParts(a).value, ValidateParts(b).value;
    HexInjective(H(Preimage(p)), H(Preimage(q)));
    if Preimage(p) == Preimage(q) { PreimageInjective(p, q); }
  }

  /** Each reason for refusing the parts names the field that is wrong, and how. */
  lemma ReasonsMean(input: Input)
    requires ValidateParts(input).Err? && input.Record?
    ensures var reasons := ValidateParts(input).error;
            && ("invalid_instance_id" in reasons <==>
                  !(input.instanceId.Text? && IsInstanceId(input.instanceId.text)))
            && ("invalid_problem_package_sha256" in reasons <==>
                  !(input.problemPackageSha256.Text? && IsLowerHex64(input.problemPackageSha256.text)))
            && ("nonce_not_bytes" in reasons <==> !input.nonce.Octets?)
            && ("nonce_length" in reasons <==> input.nonce.Octets? && |input.nonce.octets| != 32)
            && ("oracle_bytes_not_bytes" in reasons <==> !input.oracleBytes.Octets?)
            && ("oracle_bytes_empty" in reasons <==> input.oracleBytes.Octets? && input.oracleBytes.octets == [])
  {
    hide IsInstanceId, IsLowerHex64;
    var a, b := "invalid_instance_id", "invalid_problem_package_sha256";
    assert |a| == 19 && |b| == 30;
    Lengths();
  }

  lemma Lengths()
    ensures |"nonce_not_bytes"| == 15 && |"nonce_length"| == 12
    ensures |"oracle_bytes_not_bytes"| == 22 && |"oracle_bytes_empty"| == 18
  {
  }

  lemma RefusalHasReasons(input: Input)
    ensures ValidateParts(input).Err? ==> ValidateParts(input).error != []
  {
  }
}

/** Reading a preimage and a commitment back, with nothing but the documented layout. */
module CommitmentReading {
  import opened Common
  import opened JsonParser
  import opened OracleCommitment

  const LABEL := "TSEI-IA-COMMIT-v0"

  predicate StartsWithLabel(octets: Bytes) {
    |octets| > |LABEL| && (forall i | 0 <= i < |LABEL| :: octets[i] == LABEL[i] as int) && octets[|LABEL|] == 0
  }

  /** The position of the first NUL, or the length. */
  function FirstNul(octets: Bytes): (n: nat)
    ensures n <= |octets| && (n < |octets| ==> octets[n] == 0) && 0 !in octets[..n]
  {
    if octets == [] || octets[0] == 0 then 0
    else
      var n := 1 + FirstNul(octets[1..]);
      assert octets[..n] == [octets[0]] + octets[1..][..n - 1];
      n
  }

  /** Octets as the code units of an ASCII string. */
  function Units(octets: Bytes): JsString { seq(|octets|, i requires 0 <= i < |octets| => octets[i] as CodeUnit) }

  /** 64 octets of digest, 32 of nonce and the oracle, with NULs between them. */
  function ReadTail(t: Bytes): Option<(Bytes, Bytes, Bytes)> {
    if |t| <= 97 || t[64] != 0 || t[97] != 0 then None else Some((t[..64], t[65..97], t[98..]))
  }

  /** The label, the instance id up to the next NUL, and the tail. */
  function ReadPreimage(octets: Bytes): Option<Parts> {
    if !StartsWithLabel(octets) then None
    else
      var rest := octets[|LABEL| + 1..];
      var n := FirstNul(rest);
      if n == |rest| then None
      else
        match ReadTail(rest[n + 1..])
        case None => None
        case Some((digest, nonce, oracle)) => Some(Parts(Units(rest[..n]), Units(digest), nonce, oracle))
  }

  lemma LabelOctets()
    ensures |LABEL| == |DOMAIN| == 17 && forall i | 0 <= i < 17 :: DOMAIN[i] == LABEL[i] as int
  {
  }

  lemma UnitsOfAscii(s: JsString)
    requires forall u | u in s :: u < 0x80
    ensures Units(Ascii(s)) == s
  {
  }

  lemma AsciiOfUnits(octets: Bytes)
    requires forall u | u in Units(octets) :: u < 0x80
    ensures Ascii(Units(octets)) == octets
  {
  }

  lemma {:induction false} FirstNulAt(octets: Bytes, n: nat)
    requires n < |octets| && octets[n] == 0 && forall i | 0 <= i < n :: octets[i] != 0
    ensures FirstNul(octets) == n
  {
    if n > 0 { FirstNulAt(octets[1..], n - 1); }
  }

  lemma TailRead(p: Parts)
    requires ValidParts(p)
    ensures ReadTail(Tail(p)) == Some((Ascii(p.digest), p.nonce, p.oracle))
  {
    hide Ascii;
    var t := Tail(p);
    assert t[..64] == Ascii(p.digest) && t[65..97] == p.nonce && t[98..] == p.oracle;
  }

  lemma TailOfRead(t: Bytes, p: Parts)
    requires ValidParts(p) && ReadTail(t) == Some((Ascii(p.digest), p.nonce, p.oracle))
    ensures t == Tail(p)
  {
    hide Ascii;
  }

  lemma IdRead(id: Bytes, tail: Bytes)
    requires 0 !in id
    ensures var rest := id + SEPARATOR + tail;
            FirstNul(rest) == |id| < |rest| && rest[..|id|] == id && rest[|id| + 1..] == tail
  {
    FirstZero(id, tail);
    FirstNulAt(id + SEPARATOR + tail, |id|);
  }

  lemma IdOfRead(rest: Bytes, n: nat)
    requires n < |rest| && rest[n] == 0
    ensures rest == rest[..n] + SEPARATOR + rest[n + 1..]
  {
  }

  lemma LabelRead(octets: Bytes, rest: Bytes)
    ensures octets == (DOMAIN + SEPARATOR) + rest <==> StartsWithLabel(octets) && octets[18..] == rest
  {
    LabelOctets();
    if StartsWithLabel(octets) && octets[18..] == rest {
      assert octets[..18] == DOMAIN + SEPARATOR;
      assert octets == octets[..18] + octets[18..];
    }
  }

  /** Reading undoes framing: the parts come back from their preimage, whatever
      octets nonce and oracle hold. */
  lemma PreimageRead(p: Parts)
    requires ValidParts(p)
    ensures ReadPreimage(Preimage(p)) == Some(p)
  {
    PreimageShape(p);
    hide Preimage, Ascii, Tail, StartsWithLabel, FirstNul, ReadTail, Units;
    var rest := Ascii(p.instanceId) + SEPARATOR + Tail(p);
    LabelRead(Preimage(p), rest);
    IdRead(Ascii(p.instanceId), Tail(p));
    TailRead(p);
    UnitsOfAscii(p.instanceId);
    UnitsOfAscii(p.digest);
  }

  lemma OctetsOfParts(p: Parts, id: Bytes, digest: Bytes)
    requires ValidParts(p) && Units(id) == p.instanceId && Units(digest) == p.digest
    ensures Ascii(p.instanceId) == id && Ascii(p.digest) == digest
  {
    AsciiOfUnits(id);
    AsciiOfUnits(digest);
  }

  /** And framing undoes reading: octets that read as valid parts are their preimage. */
  lemma ReadIsPreimage(octets: Bytes, p: Parts)
    requires ReadPreimage(octets) == Some(p) && ValidParts(p)
    ensures octets == Preimage(p)
  {
    hide Preimage, Ascii, Tail, ReadTail, Units, ValidParts;
    PreimageShape(p);
    var rest := octets[18..];
    hide StartsWithLabel;
    var n := FirstNul(rest);
    hide FirstNul;
    OctetsOfParts(p, rest[..n], ReadTail(rest[n + 1..]).value.0);
    TailOfRead(rest[n + 1..], p);
    hide ReadPreimage;
    IdOfRead(rest, n);
    LabelRead(octets, rest);
  }

  /** Every octet reads back from its two hexadecimal digits. */
  lemma {:induction false} HexReadsBack(octets: Bytes, i: nat)
    requires i < |octets|
    ensures HexValue(Hex(octets)[2 * i]).Some? && HexValue(Hex(octets)[2 * i + 1]).Some?
    ensures octets[i] == HexValue(Hex(octets)[2 * i]).value * 16 + HexValue(Hex(octets)[2 * i + 1]).value
  {
    if i > 0 {
      HexReadsBack(octets[1..], i - 1);
      assert Hex(octets)[2..] == Hex(octets[1..]);
    }
  }

  /** The octet with these two digits. */
  function OctetOf(high: CodeUnit, low: CodeUnit): (b: Byte)
    requires IsLowerHexUnit(high) && IsLowerHexUnit(low)
    ensures HexUnit(b / 16) == high && HexUnit(b % 16) == low
  {
    HexValue(high).value * 16 + HexValue(low).value
  }

  predicate AllLowerHex(s: JsString) { |s| % 2 == 0 && forall i | 0 <= i < |s| :: IsLowerHexUnit(s[i]) }

  /** The octets that a lower-case hexadecimal text stands for. */
  function FromHex(s: JsString): (octets: Bytes)
    requires AllLowerHex(s)
    ensures |s| == 2 * |octets|
  {
    if s == [] then [] else [OctetOf(s[0], s[1])] + FromHex(s[2..])
  }

  lemma {:induction false} HexOfFromHex(s: JsString)
    requires AllLowerHex(s)
    ensures Hex(FromHex(s)) == s
    decreases |s|
  {
    hide OctetOf, HexUnit, IsLowerHexUnit;
    if s != [] {
      HexOfFromHex(s[2..]);
      var octets := FromHex(s);
      assert octets[1..] == FromHex(s[2..]) && octets[0] == OctetOf(s[0], s[1]);
      assert s == [s[0], s[1]] + s[2..];
    }
  }

  /** The texts that pass for a digest are exactly those of 32 octets. */
  lemma DigestTextsExactly(s: JsString)
    ensures IsLowerHex64(s) <==> exists octets: Bytes :: |octets| == 32 && Hex(octets) == s
  {
    if IsLowerHex64(s) {
      assert forall i | 0 <= i < |s| :: s[i] in s;
      HexOfFromHex(s);
    }
  }
}
