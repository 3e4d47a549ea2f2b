/**
  The claim-pair derivation of `airdrop_gen.py`: the address file is split into lines, the
  lines are sorted, each line is paired with the SHA-256 hex digest of the salt's hex text
  followed by the line without its first two characters, and the pairs whose identifier is
  made only of decimal digits are reported as problematic.
 */
module Airdrop {
  import opened Wrappers
  import opened Hex
  import opened LexOrder
  import opened Lines

  /** A SHA-256 digest: 32 bytes. */
  type Digest = d: seq<byte> | |d| == 32 witness seq(32, _ => 0)

  /**
    SHA-256 (FIPS 180-4), as `hashlib.sha256(b).digest()`. The model does not define it: every
    operation takes it as a parameter and relies only on its result being 32 bytes long.
   */
  type Sha256 = seq<byte> -> Digest

  /** An address line and the claim identifier derived from it. */
  datatype ClaimPair = ClaimPair(address: string, id: string)

  /** What `genWithSalt` produces: the pairs it returns and the pairs it reports as problematic. */
  datatype Generated = Generated(pairs: seq<ClaimPair>, problematic: seq<ClaimPair>)

  /**
    `loadTargetAddresses` given the text `f.read()` returns for the file in text mode, where
    every `\r\n` and `\r` has already become `\n`: one entry per line, empty lines included.
   */
  function LoadTargetAddresses(data: string): (lines: seq<string>)
    ensures |lines| == Occurrences('\n', data) + 1
    ensures forall k :: 0 <= k < |lines| ==> '\n' !in lines[k]
    ensures Join(lines, '\n') == data
  {
    JoinSplit(data, '\n');
    Split(data, '\n')
  }

  /** A file that ends in a newline has an empty last line. */
  lemma TrailingNewlineGivesEmptyLine(data: string)
    ensures LoadTargetAddresses(data + "\n") == LoadTargetAddresses(data) + [""]
  {
    SplitTrailingSeparator(data, '\n');
  }

  /** What `hexdigest()` returns: 64 lower-case hex digits. */
  predicate IsHexDigest(id: string) {
    |id| == 64 && forall i :: 0 <= i < |id| ==> IsLowerHexChar(id[i])
  }

  /** `hashhex`: hex-decode the text, hash the bytes, and hex-encode the digest. */
  function HashHex(hexData: string, hash: Sha256): (r: Result<string, HexError>)
    ensures r.Success? <==> IsHexText(hexData)
    ensures r.Failure? ==> FromHex(hexData) == Failure(r.error)
    ensures r.Success? ==> IsHexDigest(r.value)
    ensures r.Success? ==> FromHex(hexData).Success? && FromHex(r.value) == Success(hash(FromHex(hexData).value))
  {
    FromHexSucceedsIff(hexData);
    match FromHex(hexData)
    case Success(b) =>
      var d := hash(b);
      FromHexToHex(d);
      Success(ToHex(d))
    case Failure(e) => Failure(e)
  }

  /** `address[2:]`: the address without its first two characters; empty for a shorter line. */
  function StripPrefix(address: string): (body: string)
    ensures |address| >= 2 ==> address == address[..2] + body
    ensures |address| < 2 ==> body == ""
  {
    if |address| < 2 then "" else address[2..]
  }

  /** The identifier of one address: `hashhex(salt.hex() + address[2:])`. */
  function ClaimId(salt: seq<byte>, address: string, hash: Sha256): (r: Result<string, HexError>)
    ensures r.Success? <==> IsHexText(StripPrefix(address))
    ensures r.Success? ==> IsHexDigest(r.value)
  {
    FromHexAfterToHex(salt, StripPrefix(address));
    FromHexSucceedsIff(StripPrefix(address));
    FromHexSucceedsIff(ToHex(salt) + StripPrefix(address));
    HashHex(ToHex(salt) + StripPrefix(address), hash)
  }

  /**
    The bytes hashed for an address are the salt followed by the decoded address body; an
    error in the body is reported at its position after the salt's hex text.
   */
  lemma ClaimIdHashesSaltThenBody(salt: seq<byte>, address: string, hash: Sha256)
    ensures FromHex(StripPrefix(address)).Success? ==>
      ClaimId(salt, address, hash) == Success(ToHex(hash(salt + FromHex(StripPrefix(address)).value)))
    ensures FromHex(StripPrefix(address)).Failure? ==>
      ClaimId(salt, address, hash) == Failure(ShiftError(FromHex(StripPrefix(address)).error, 2 * |salt|))
  {
    FromHexAfterToHex(salt, StripPrefix(address));
  }

  /** A line shorter than two characters (an empty last line, say) hashes the salt alone. */
  lemma ShortLineHashesSalt(salt: seq<byte>, address: string, hash: Sha256)
    requires |address| < 2
    ensures ClaimId(salt, address, hash) == Success(ToHex(hash(salt)))
  {
    ClaimIdHashesSaltThenBody(salt, address, hash);
    assert salt + [] == salt;
  }

  /** Addresses that differ only in their first two characters get the same identifier. */
  lemma PrefixInsensitive(salt: seq<byte>, a: string, b: string, hash: Sha256)
    requires |a| == |b|
    requires forall i :: 2 <= i < |a| ==> a[i] == b[i]
    ensures ClaimId(salt, a, hash) == ClaimId(salt, b, hash)
  {
    assert StripPrefix(a) == StripPrefix(b);
  }

  /** `charIsDec`: whether `int(c)` accepts the character, i.e. whether it is a decimal digit. */
  predicate CharIsDec(c: char)
    ensures CharIsDec(c) <==> IsLowerHexChar(c) && !('a' <= c <= 'f')
  {
    '0' <= c <= '9'
  }

  /** An identifier made only of decimal digits. */
  predicate AllDecimal(id: string) {
    forall i :: 0 <= i < |id| ==> CharIsDec(id[i])
  }

  /** Among hex digest characters, the decimal ones are exactly those that are not `a`-`f`. */
  lemma AllDecimalDigest(id: string)
    requires IsHexDigest(id)
    ensures AllDecimal(id) <==> forall i :: 0 <= i < |id| ==> !('a' <= id[i] <= 'f')
  {
  }

  /** How the loop derives the identifier of one address line. */
  type Deriver = string -> Result<string, HexError>

  /** The loop body's derivation: `hashhex(salt.hex() + address[2:])`. */
  function ClaimIdOf(salt: seq<byte>, hash: Sha256): Deriver {
    address => ClaimId(salt, address, hash)
  }

  /**
    The pair-building loop: one `ClaimPair(address, claimId(address))` per address, in order, or
    the error of the first address whose identifier cannot be derived.
   */
  function DeriveClaims(addresses: seq<string>, claimId: Deriver): (r: Result<seq<ClaimPair>, HexError>)
    ensures r.Success? ==> |r.value| == |addresses| && Addresses(r.value) == addresses
    decreases |addresses|
  {
    if addresses == [] then Success([])
    else
      var n := |addresses| - 1;
      match DeriveClaims(addresses[..n], claimId)
      case Failure(e) => Failure(e)
      case Success(pairs) =>
        match claimId(addresses[n])
        case Failure(e) => Failure(e)
        case Success(id) => Success(pairs + [ClaimPair(addresses[n], id)])
  }

  /** `i` is the first address whose identifier cannot be derived. */
  predicate FirstFailure(addresses: seq<string>, claimId: Deriver, i: int) {
    && 0 <= i < |addresses|
    && claimId(addresses[i]).Failure?
    && forall j :: 0 <= j < i ==> claimId(addresses[j]).Success?
  }

  /** The loop completes exactly when every address has an identifier. */
  lemma {:induction false} DeriveClaimsSucceedsIff(addresses: seq<string>, claimId: Deriver)
    ensures DeriveClaims(addresses, claimId).Success? <==>
      forall i :: 0 <= i < |addresses| ==> claimId(addresses[i]).Success?
    decreases |addresses|
  {
    if addresses != [] {
      var n := |addresses| - 1;
      DeriveClaimsSucceedsIff(addresses[..n], claimId);
      assert forall i :: 0 <= i < n ==> addresses[..n][i] == addresses[i];
    }
  }

  /** When it completes, the loop returns one pair per address, in order: the address and its identifier. */
  lemma {:induction false} DeriveClaimsPairs(addresses: seq<string>, claimId: Deriver)
    requires DeriveClaims(addresses, claimId).Success?
    ensures |DeriveClaims(addresses, claimId).value| == |addresses|
    ensures forall i :: 0 <= i < |addresses| ==>
      && claimId(addresses[i]).Success?
      && DeriveClaims(addresses, claimId).value[i] == ClaimPair(addresses[i], claimId(addresses[i]).value)
    decreases |addresses|
  {
    if addresses != [] {
      var n := |addresses| - 1;
      DeriveClaimsPairs(addresses[..n], claimId);
      assert forall i :: 0 <= i < n ==> addresses[..n][i] == addresses[i];
    }
  }

  /** When it fails, the error is that of the first address without an identifier. */
  lemma {:induction false} DeriveClaimsFirstError(addresses: seq<string>, claimId: Deriver)
    requires DeriveClaims(addresses, claimId).Failure?
    ensures exists i ::
      && FirstFailure(addresses, claimId, i)
      && claimId(addresses[i]) == Failure(DeriveClaims(addresses, claimId).error)
    decreases |addresses|
  {
    var n := |addresses| - 1;
    var front := addresses[..n];
    assert forall i :: 0 <= i < n ==> front[i] == addresses[i];
    if DeriveClaims(front, claimId).Failure? {
      DeriveClaimsFirstError(front, claimId);
      var i :| FirstFailure(front, claimId, i) && claimId(front[i]) == Failure(DeriveClaims(front, claimId).error);
      assert FirstFailure(addresses, claimId, i);
    } else {
      DeriveClaimsSucceedsIff(front, claimId);
      assert FirstFailure(addresses, claimId, n);
    }
  }

  /** Once a prefix of the addresses fails, the whole loop fails with the same error. */
  lemma {:induction false} DeriveFailureSticks(addresses: seq<string>, i: nat, claimId: Deriver)
    requires i <= |addresses|
    requires DeriveClaims(addresses[..i], claimId).Failure?
    ensures DeriveClaims(addresses, claimId) == DeriveClaims(addresses[..i], claimId)
    decreases |addresses| - i
  {
    if i < |addresses| {
      assert addresses[..i + 1][..i] == addresses[..i];
      DeriveFailureSticks(addresses, i + 1, claimId);
    } else {
      assert addresses[..i] == addresses;
    }
  }

  /** The validator: the pairs whose identifier is made only of decimal digits, in order. */
  function Problematic(pairs: seq<ClaimPair>): (flagged: seq<ClaimPair>)
    ensures forall p :: p in flagged <==> p in pairs && AllDecimal(p.id)
    ensures forall p :: multiset(flagged)[p] == if AllDecimal(p.id) then multiset(pairs)[p] else 0
    ensures |flagged| <= |pairs|
    decreases |pairs|
  {
    if pairs == [] then []
    else
      var n := |pairs| - 1;
      assert pairs == pairs[..n] + [pairs[n]];
      assert multiset(pairs) == multiset(pairs[..n]) + multiset{pairs[n]};
      Problematic(pairs[..n]) + (if AllDecimal(pairs[n].id) then [pairs[n]] else [])
  }

  /** Extending the pairs by one extends the flagged pairs by that one, if it is flagged. */
  lemma ProblematicStep(pairs: seq<ClaimPair>, p: nat)
    requires p < |pairs|
    ensures Problematic(pairs[..p + 1]) ==
      Problematic(pairs[..p]) + (if AllDecimal(pairs[p].id) then [pairs[p]] else [])
  {
    assert pairs[..p + 1][..p] == pairs[..p];
  }

  /** The addresses of the pairs, in order. */
  function Addresses(pairs: seq<ClaimPair>): seq<string> {
    seq(|pairs|, i requires 0 <= i < |pairs| => pairs[i].address)
  }

  /** `genWithSalt` on the lines of the address file. */
  function Generation(salt: seq<byte>, lines: seq<string>, hash: Sha256): (r: Result<Generated, HexError>)
    ensures r.Failure? ==> exists l :: l in lines && ClaimId(salt, l, hash) == Failure(r.error)
  {
    var sorted := Sort(lines);
    match DeriveClaims(sorted, ClaimIdOf(salt, hash))
    case Failure(e) =>
      DeriveClaimsFirstError(sorted, ClaimIdOf(salt, hash));
      var i :| FirstFailure(sorted, ClaimIdOf(salt, hash), i) && ClaimIdOf(salt, hash)(sorted[i]) == Failure(e);
      assert sorted[i] in multiset(lines);
      Failure(e)
    case Success(pairs) => Success(Generated(pairs, Problematic(pairs)))
  }

  /** Exactly one pair per line, duplicates and empty lines included. */
  lemma GenerationOnePairPerLine(salt: seq<byte>, lines: seq<string>, hash: Sha256)
    ensures var r := Generation(salt, lines, hash);
      r.Success? ==> |r.value.pairs| == |lines|
  {
    if Generation(salt, lines, hash).Success? {
      DeriveClaimsPairs(Sort(lines), ClaimIdOf(salt, hash));
      assert |Sort(lines)| == |multiset(Sort(lines))| == |multiset(lines)| == |lines|;
    }
  }

  /** The addresses of the pairs are the lines in ascending order. */
  lemma GenerationSortedPermutation(salt: seq<byte>, lines: seq<string>, hash: Sha256)
    ensures var r := Generation(salt, lines, hash);
      r.Success? ==> Sorted(Addresses(r.value.pairs)) && multiset(Addresses(r.value.pairs)) == multiset(lines)
  {
    if Generation(salt, lines, hash).Success? {
      var pairs := Generation(salt, lines, hash).value.pairs;
      var sorted := Sort(lines);
      DeriveClaimsPairs(sorted, ClaimIdOf(salt, hash));
      assert Addresses(pairs) == sorted by {
        forall i | 0 <= i < |sorted|
          ensures Addresses(pairs)[i] == sorted[i]
        {
        }
      }
      SortSorted(lines);
    }
  }

  /** Each pair holds its address unchanged and that address's 64-digit identifier. */
  lemma GenerationIdentifiers(salt: seq<byte>, lines: seq<string>, hash: Sha256)
    ensures var r := Generation(salt, lines, hash);
      r.Success? ==> forall p :: p in r.value.pairs ==>
        p.address in lines && ClaimId(salt, p.address, hash) == Success(p.id) && IsHexDigest(p.id)
  {
    if Generation(salt, lines, hash).Success? {
      var pairs := Generation(salt, lines, hash).value.pairs;
      var sorted := Sort(lines);
      DeriveClaimsPairs(sorted, ClaimIdOf(salt, hash));
      forall p | p in pairs
        ensures p.address in lines && ClaimId(salt, p.address, hash) == Success(p.id) && IsHexDigest(p.id)
      {
        var i :| 0 <= i < |pairs| && pairs[i] == p;
        assert sorted[i] in multiset(sorted);
      }
    }
  }

  /** The run fails exactly when some line's body is not an even number of hex digits. */
  lemma GenerationSucceedsIff(salt: seq<byte>, lines: seq<string>, hash: Sha256)
    ensures Generation(salt, lines, hash).Success? <==>
      forall l :: l in lines ==> IsHexText(StripPrefix(l))
  {
    var sorted := Sort(lines);
    DeriveClaimsSucceedsIff(sorted, ClaimIdOf(salt, hash));
    forall l | l in lines
      ensures ClaimId(salt, l, hash).Success? <==> IsHexText(StripPrefix(l))
    {
    }
    if Generation(salt, lines, hash).Success? {
      forall l | l in lines
        ensures IsHexText(StripPrefix(l))
      {
        assert l in multiset(sorted);
        var i :| 0 <= i < |sorted| && sorted[i] == l;
      }
    } else {
      var i :| 0 <= i < |sorted| && ClaimId(salt, sorted[i], hash).Failure?;
      assert sorted[i] in multiset(lines);
    }
  }

  /** Reordering the address file does not change the result. */
  lemma GenerationPermutationInvariant(salt: seq<byte>, lines: seq<string>, lines': seq<string>, hash: Sha256)
    requires multiset(lines) == multiset(lines')
    ensures Generation(salt, lines, hash) == Generation(salt, lines', hash)
  {
    SortPermutationInvariant(lines, lines');
  }

  /** A pair is reported exactly when it is returned and its identifier is all decimal digits. */
  lemma GenerationFlagsExactly(salt: seq<byte>, lines: seq<string>, hash: Sha256)
    ensures var r := Generation(salt, lines, hash);
      r.Success? ==> forall p :: p in r.value.problematic <==> p in r.value.pairs && AllDecimal(p.id)
    ensures var r := Generation(salt, lines, hash);
      r.Success? ==> r.value.pairs == DeriveClaims(Sort(lines), ClaimIdOf(salt, hash)).value
  {
  }

  /** An empty line, such as the one after a trailing newline, yields the pair ("", digest of the salt). */
  lemma EmptyLinePair(salt: seq<byte>, lines: seq<string>, hash: Sha256)
    requires "" in lines
    ensures Generation(salt, lines, hash).Success? ==>
      ClaimPair("", ToHex(hash(salt))) in Generation(salt, lines, hash).value.pairs
  {
    if Generation(salt, lines, hash).Success? {
      var sorted := Sort(lines);
      var pairs := Generation(salt, lines, hash).value.pairs;
      DeriveClaimsPairs(sorted, ClaimIdOf(salt, hash));
      assert "" in multiset(sorted);
      var i :| 0 <= i < |sorted| && sorted[i] == "";
      ShortLineHashesSalt(salt, "", hash);
      assert pairs[i] == ClaimPair("", ToHex(hash(salt)));
    }
  }

  /**
    Two lines given out of order with the salt byte 0x01: the pairs come back sorted, and each
    identifier is the digest of the salt byte followed by the decoded address body.
   */
  lemma TwoAddressScenario(hash: Sha256)
    ensures var r := Generation([1], ["0xBB", "0xAA"], hash);
      && r.Success?
      && r.value.pairs == [ClaimPair("0xAA", ToHex(hash([1, 0xAA]))), ClaimPair("0xBB", ToHex(hash([1, 0xBB])))]
  {
    var pairs := [ClaimPair("0xAA", ToHex(hash([1, 0xAA]))), ClaimPair("0xBB", ToHex(hash([1, 0xBB])))];
    ScenarioSort();
    ScenarioDerive(hash);
    assert DeriveClaims(Sort(["0xBB", "0xAA"]), ClaimIdOf([1], hash)) == Success(pairs);
    assert Generation([1], ["0xBB", "0xAA"], hash) == Success(Generated(pairs, Problematic(pairs)));
  }

  lemma ScenarioDerive(hash: Sha256)
    ensures DeriveClaims(["0xAA", "0xBB"], ClaimIdOf([1], hash))
      == Success([ClaimPair("0xAA", ToHex(hash([1, 0xAA]))), ClaimPair("0xBB", ToHex(hash([1, 0xBB])))])
  {
    var f := ClaimIdOf([1], hash);
    ScenarioClaimId("0xAA", 0xAA, hash);
    ScenarioClaimId("0xBB", 0xBB, hash);
    DeriveTwo("0xAA", "0xBB", f, ToHex(hash([1, 0xAA])), ToHex(hash([1, 0xBB])));
  }

  lemma DeriveTwo(x: string, y: string, f: Deriver, idX: string, idY: string)
    requires f(x) == Success(idX) && f(y) == Success(idY)
    ensures DeriveClaims([x, y], f) == Success([ClaimPair(x, idX), ClaimPair(y, idY)])
  {
    var both: seq<string> := [x, y];
    var first: seq<string> := [x];
    assert first[..0] == [] && first[0] == x;
    assert DeriveClaims(first[..0], f) == Success([]);
    assert f(first[0]) == Success(idX);
    var p: seq<ClaimPair> := [];
    assert DeriveClaims(first, f) == Success(p + [ClaimPair(x, idX)]);
    assert p + [ClaimPair(x, idX)] == [ClaimPair(x, idX)];
    assert both[..1] == first && both[1] == y;
    assert DeriveClaims(both, f) == Success([ClaimPair(x, idX)] + [ClaimPair(y, idY)]);
    assert [ClaimPair(x, idX)] + [ClaimPair(y, idY)] == [ClaimPair(x, idX), ClaimPair(y, idY)];
  }

  lemma ScenarioSort()
    ensures Sort(["0xBB", "0xAA"]) == ["0xAA", "0xBB"]
  {
    assert LexLe("0xAA", "0xBB");
    assert !LexLe("0xBB", "0xAA");
    assert Insert("0xAA", []) == ["0xAA"];
  }

  lemma ScenarioClaimId(address: string, b: byte, hash: Sha256)
    requires (address == "0xAA" && b == 0xAA) || (address == "0xBB" && b == 0xBB)
    ensures ClaimId([1], address, hash) == Success(ToHex(hash([1, b])))
  {
    var body := StripPrefix(address);
    assert body == address[2..];
    assert |body| == 2 && IsHexChar(body[0]) && IsHexChar(body[1]);
    var none: seq<byte> := [];
    assert body[2..] == [] && FromHex(body[2..]) == Success(none);
    assert (16 * HexValue(body[0]) + HexValue(body[1])) as byte == b;
    assert FromHex(body) == Success([b] + none);
    assert [b] + none == [b];
    ClaimIdHashesSaltThenBody([1], address, hash);
    assert [1] + [b] == [1, b];
  }

  /**
    The validator loop of `genWithSalt`: for each pair, scan its identifier until the first
    character that is not a decimal digit; a pair with no such character is problematic.
   */
  method FindProblematic(claimPairs: seq<ClaimPair>) returns (problematic: seq<ClaimPair>)
    ensures problematic == Problematic(claimPairs)
  {
    problematic := [];
    for p := 0 to |claimPairs|
      invariant problematic == Problematic(claimPairs[..p])
    {
      var pair := claimPairs[p];
      var foundNonDecChar := ScanForNonDecimal(pair.id);
      ProblematicStep(claimPairs, p);
      if !foundNonDecChar {
        problematic := problematic + [pair];
      }
    }
    assert claimPairs[..|claimPairs|] == claimPairs;
  }

  /** The inner loop of the validator: scan until the first character that is not a decimal digit. */
  method ScanForNonDecimal(id: string) returns (foundNonDecChar: bool)
    ensures foundNonDecChar <==> !AllDecimal(id)
  {
    foundNonDecChar := false;
    var j := 0;
    while j < |id|
      invariant 0 <= j <= |id|
      invariant !foundNonDecChar
      invariant forall k :: 0 <= k < j ==> CharIsDec(id[k])
    {
      if !CharIsDec(id[j]) {
        foundNonDecChar := true;
        break;
      }
      j := j + 1;
    }
  }

  /**
    The pair-building loop of `genWithSalt`: for each address in order, hash the salt's hex text
    followed by `address[2:]` and append the pair. A hex-decoding error ends the loop.
   */
  method BuildClaimPairs(salt: seq<byte>, addresses: array<string>, hash: Sha256)
    returns (r: Result<seq<ClaimPair>, HexError>)
    ensures r == DeriveClaims(addresses[..], ClaimIdOf(salt, hash))
  {
    var claimPairs: seq<ClaimPair> := [];
    var i := 0;
    while i < addresses.Length
      invariant 0 <= i <= addresses.Length
      invariant DeriveClaims(addresses[..i], ClaimIdOf(salt, hash)) == Success(claimPairs)
    {
      var address := addresses[i];
      var toHash := ToHex(salt) + StripPrefix(address);
      var nymId := HashHex(toHash, hash);
      assert nymId == ClaimIdOf(salt, hash)(address);
      assert addresses[..i + 1][..i] == addresses[..i];
      if nymId.Failure? {
        DeriveFailureSticks(addresses[..], i + 1, ClaimIdOf(salt, hash));
        return Failure(nymId.error);
      }
      claimPairs := claimPairs + [ClaimPair(address, nymId.value)];
      i := i + 1;
    }
    assert addresses[..i] == addresses[..];
    r := Success(claimPairs);
  }

  /**
    `genWithSalt(salt)` given the address file's contents: load the lines, sort them in place,
    build one pair per line, then run the validator over the pairs.
   */
  method GenWithSalt(salt: seq<byte>, data: string, hash: Sha256) returns (r: Result<Generated, HexError>)
    ensures r == Generation(salt, LoadTargetAddresses(data), hash)
  {
    var lines := LoadTargetAddresses(data);
    var addresses := new string[|lines|](i requires 0 <= i < |lines| => lines[i]);
    assert addresses[..] == lines;
    SortInPlace(addresses);
    var claimPairs := BuildClaimPairs(salt, addresses, hash);
    if claimPairs.Failure? {
      return Failure(claimPairs.error);
    }
    var problematic := FindProblematic(claimPairs.value);
    r := Success(Generated(claimPairs.value, problematic));
  }

  /** `main` without its prompt and file output: decode the salt text, then run `genWithSalt`. */
  method GenerateFromSaltText(saltText: string, data: string, hash: Sha256) returns (r: Result<Generated, HexError>)
    ensures FromHex(saltText).Failure? ==> r == Failure(FromHex(saltText).error)
    ensures FromHex(saltText).Success? ==> r == Generation(FromHex(saltText).value, LoadTargetAddresses(data), hash)
  {
    var salt := FromHex(saltText);
    if salt.Failure? {
      return Failure(salt.error);
    }
    r := GenWithSalt(salt.value, data, hash);
  }
}
