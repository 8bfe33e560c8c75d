/**
 * Commitments, Merkle folding and proof serialisation (scripts/zk-proof-helper.ts).
 *
 * SHA-256 is an arbitrary function `h` from byte strings to 32-byte digests. Nothing is assumed
 * about collisions: binding is stated as "the inputs agree, or here are two distinct byte
 * strings with the same digest".
 */
module ZkProof {
  import opened Options

  type Byte = x: int | 0 <= x < 256
  type Bytes = seq<Byte>
  type Hash = Bytes -> Bytes

  ghost predicate IsDigest(h: Hash) {
    forall x: Bytes :: |h(x)| == 32
  }

  ghost predicate Collision(h: Hash, x: Bytes, y: Bytes) {
    x != y && h(x) == h(y)
  }

  // ----- Commitment to an amount -----

  const AMOUNT_LIMIT: int := 0x1_0000_0000_0000_0000

  /** The number written by the first `n` little-endian bytes of `b`. */
  function LittleEndianValue(b: Bytes, n: nat): nat
    requires n <= |b|
  {
    if n == 0 then 0 else LittleEndianValue(b, n - 1) + b[n - 1] * Pow256(n - 1)
  }

  function Pow256(n: nat): (p: nat)
    ensures p >= 1
  {
    if n == 0 then 1 else 256 * Pow256(n - 1)
  }

  /** The block that is hashed before the salt: 16 bytes whose first 8 write `amount`. */
  ghost predicate EncodesAmount(block: Bytes, amount: int) {
    && |block| == 16
    && LittleEndianValue(block, 8) == amount
    && forall i :: 8 <= i < 16 ==> block[i] == 0
  }

  /** `digest` is the hash of the block for `amount` followed by the salt. */
  ghost predicate CommitsTo(h: Hash, digest: Bytes, amount: int, salt: Bytes) {
    exists block: Bytes :: EncodesAmount(block, amount) && digest == h(block + salt)
  }

  /**
   * `hashAmountWithSalt`: writes the amount into a zeroed 16-byte buffer and hashes it with the
   * salt. Writing a value outside 0..2^64-1 throws, modelled by None.
   */
  method HashAmountWithSalt(h: Hash, amount: int, salt: Bytes)
    returns (digest: Option<Bytes>)
    ensures digest.Some? <==> 0 <= amount < AMOUNT_LIMIT
    ensures digest.Some? ==> CommitsTo(h, digest.value, amount, salt)
  {
    if amount < 0 || amount >= AMOUNT_LIMIT {
      return None;
    }
    var buffer := new Byte[16](_ => 0);
    var rest: nat := amount;
    var i := 0;
    while i < 8
      invariant 0 <= i <= 8
      invariant fresh(buffer) && buffer.Length == 16
      invariant forall k :: i <= k < 16 ==> buffer[k] == 0
      invariant LittleEndianValue(buffer[..], i) + rest * Pow256(i) == amount
    {
      ghost var before := buffer[..];
      ghost var was := rest;
      buffer[i] := rest % 256;
      rest := rest / 256;
      ValueOfPrefix(before, buffer[..], i);
      assert was * Pow256(i) == (was % 256) * Pow256(i) + rest * Pow256(i + 1) by {
        SplitLowByte(was, Pow256(i));
      }
      i := i + 1;
    }
    RestIsZero(amount, LittleEndianValue(buffer[..], 8), rest);
    digest := Some(h(buffer[..] + salt));
    assert EncodesAmount(buffer[..], amount);
  }

  /** A committed digest is that of 16 bytes - the amount, lowest byte first, and eight zeros - and the salt. */
  lemma CommittedBytes(h: Hash, digest: Bytes, amount: int, salt: Bytes) returns (b: Bytes)
    requires CommitsTo(h, digest, amount, salt)
    ensures |b| == 16 && digest == h(b + salt)
    ensures amount == b[0] as int + 0x100 * (b[1] as int) + 0x1_0000 * (b[2] as int) + 0x100_0000 * (b[3] as int)
                      + 0x1_0000_0000 * (b[4] as int) + 0x100_0000_0000 * (b[5] as int)
                      + 0x1_0000_0000_0000 * (b[6] as int) + 0x100_0000_0000_0000 * (b[7] as int)
    ensures forall i :: 8 <= i < 16 ==> b[i] == 0
  {
    b :| EncodesAmount(b, amount) && digest == h(b + salt);
    assert Pow256(1) == 0x100 && Pow256(2) == 0x1_0000 && Pow256(3) == 0x100_0000;
    assert Pow256(4) == 0x1_0000_0000 && Pow256(5) == 0x100_0000_0000;
    assert Pow256(6) == 0x1_0000_0000_0000 && Pow256(7) == 0x100_0000_0000_0000;
    assert LittleEndianValue(b, 1) == b[0];
    assert LittleEndianValue(b, 2) == LittleEndianValue(b, 1) + b[1] * Pow256(1);
    assert LittleEndianValue(b, 3) == LittleEndianValue(b, 2) + b[2] * Pow256(2);
    assert LittleEndianValue(b, 4) == LittleEndianValue(b, 3) + b[3] * Pow256(3);
    assert LittleEndianValue(b, 5) == LittleEndianValue(b, 4) + b[4] * Pow256(4);
    assert LittleEndianValue(b, 6) == LittleEndianValue(b, 5) + b[5] * Pow256(5);
    assert LittleEndianValue(b, 7) == LittleEndianValue(b, 6) + b[6] * Pow256(6);
    assert LittleEndianValue(b, 8) == LittleEndianValue(b, 7) + b[7] * Pow256(7);
  }

  lemma ValueOfPrefix(a: Bytes, b: Bytes, n: nat)
    requires n <= |a| && n <= |b| && a[..n] == b[..n]
    ensures LittleEndianValue(a, n) == LittleEndianValue(b, n)
  {
    if n > 0 {
      assert a[n - 1] == a[..n][n - 1] == b[n - 1];
      assert a[..n - 1] == a[..n][..n - 1] == b[..n - 1];
      ValueOfPrefix(a, b, n - 1);
    }
  }

  lemma SplitLowByte(n: nat, p: nat)
    ensures n * p == (n % 256) * p + (n / 256) * (256 * p)
  {
    assert n == 256 * (n / 256) + n % 256;
    assert n * p == (256 * (n / 256) + n % 256) * p;
  }

  lemma RestIsZero(amount: int, low: nat, rest: nat)
    requires amount < AMOUNT_LIMIT && low + rest * Pow256(8) == amount
    ensures rest == 0
  {
    assert Pow256(8) == AMOUNT_LIMIT by {
      assert Pow256(4) == 0x1_0000_0000;
      assert Pow256(6) == 0x1_0000_0000_0000;
    }
  }

  /** An encoding determines its amount, and an amount its encoding. */
  lemma {:induction false} EncodingIsUnique(a: Bytes, b: Bytes, n: nat)
    requires n <= |a| && n <= |b| && LittleEndianValue(a, n) == LittleEndianValue(b, n)
    ensures a[..n] == b[..n]
  {
    if n > 0 {
      var x, y := LittleEndianValue(a, n - 1), LittleEndianValue(b, n - 1);
      ValueBound(a, n - 1);
      ValueBound(b, n - 1);
      TopDigit(x, y, a[n - 1], b[n - 1], Pow256(n - 1));
      EncodingIsUnique(a, b, n - 1);
      assert a[..n] == a[..n - 1] + [a[n - 1]];
      assert b[..n] == b[..n - 1] + [b[n - 1]];
    }
  }

  lemma {:induction false} ValueBound(b: Bytes, n: nat)
    requires n <= |b|
    ensures LittleEndianValue(b, n) < Pow256(n)
  {
    if n > 0 {
      ValueBound(b, n - 1);
      MulMonotone(b[n - 1], 255, Pow256(n - 1));
    }
  }

  lemma MulMonotone(a: nat, b: nat, p: nat)
    requires a <= b
    ensures a * p <= b * p
  {
    assert b * p == a * p + (b - a) * p;
  }

  lemma TopDigit(x: nat, y: nat, d: nat, e: nat, p: nat)
    requires x < p && y < p && x + d * p == y + e * p
    ensures d == e && x == y
  {
    if d > e {
      MulMonotone(e + 1, d, p);
    } else if d < e {
      MulMonotone(d + 1, e, p);
    }
  }

  /** Equal commitments have the same amount and salt, or exhibit a hash collision. */
  lemma CommitmentIsBinding(h: Hash, a: int, s: Bytes, b: int, t: Bytes, digest: Bytes)
    returns (x: Bytes, y: Bytes)
    requires CommitsTo(h, digest, a, s) && CommitsTo(h, digest, b, t)
    ensures (a == b && s == t) || Collision(h, x, y)
  {
    var p: Bytes :| EncodesAmount(p, a) && digest == h(p + s);
    var q: Bytes :| EncodesAmount(q, b) && digest == h(q + t);
    x, y := p + s, q + t;
    if x == y {
      assert p == x[..16] == y[..16] == q;
      assert s == x[16..] == y[16..] == t;
    }
  }

  /** A commitment is a function of amount and salt. */
  lemma CommitmentIsDetermined(h: Hash, d: Bytes, e: Bytes, amount: int, salt: Bytes)
    requires CommitsTo(h, d, amount, salt) && CommitsTo(h, e, amount, salt)
    ensures d == e
  {
    var p: Bytes :| EncodesAmount(p, amount) && d == h(p + salt);
    var q: Bytes :| EncodesAmount(q, amount) && e == h(q + salt);
    EncodingIsUnique(p, q, 8);
    assert forall i :: 0 <= i < 8 ==> p[i] == p[..8][i] == q[..8][i] == q[i];
    assert p == q;
  }

  // ----- Merkle proofs -----

  ghost function Fold(h: Hash, leaf: Bytes, proof: seq<Bytes>): Bytes
    decreases |proof|
  {
    if proof == [] then leaf
    else h(Fold(h, leaf, proof[..|proof| - 1]) + proof[|proof| - 1])
  }

  /** The nodes from the leaf to the root: each is the hash of the one before and its path element. */
  ghost predicate IsChain(h: Hash, leaf: Bytes, proof: seq<Bytes>, merkleRoot: Bytes, nodes: seq<Bytes>) {
    && |nodes| == |proof| + 1
    && nodes[0] == leaf && nodes[|proof|] == merkleRoot
    && forall i :: 0 <= i < |proof| ==> nodes[i + 1] == h(nodes[i] + proof[i])
  }

  ghost predicate LeadsTo(h: Hash, leaf: Bytes, proof: seq<Bytes>, merkleRoot: Bytes) {
    exists nodes :: IsChain(h, leaf, proof, merkleRoot, nodes)
  }

  lemma {:induction false} ChainOfFold(h: Hash, leaf: Bytes, proof: seq<Bytes>) returns (nodes: seq<Bytes>)
    ensures IsChain(h, leaf, proof, Fold(h, leaf, proof), nodes)
    decreases |proof|
  {
    if proof == [] {
      nodes := [leaf];
    } else {
      var n := |proof| - 1;
      var before := ChainOfFold(h, leaf, proof[..n]);
      nodes := before + [Fold(h, leaf, proof)];
      assert forall i :: 0 <= i < n ==> proof[..n][i] == proof[i];
    }
  }

  lemma {:induction false} FoldOfChain(h: Hash, leaf: Bytes, proof: seq<Bytes>, merkleRoot: Bytes, nodes: seq<Bytes>)
    requires IsChain(h, leaf, proof, merkleRoot, nodes)
    ensures Fold(h, leaf, proof) == merkleRoot
    decreases |proof|
  {
    if proof != [] {
      var n := |proof| - 1;
      assert forall i :: 0 <= i < n ==> proof[..n][i] == proof[i];
      FoldOfChain(h, leaf, proof[..n], nodes[n], nodes[..n + 1]);
    }
  }

  lemma FoldIffChain(h: Hash, leaf: Bytes, proof: seq<Bytes>, merkleRoot: Bytes)
    ensures Fold(h, leaf, proof) == merkleRoot <==> LeadsTo(h, leaf, proof, merkleRoot)
  {
    if LeadsTo(h, leaf, proof, merkleRoot) {
      var nodes :| IsChain(h, leaf, proof, merkleRoot, nodes);
      FoldOfChain(h, leaf, proof, merkleRoot, nodes);
    }
    var nodes := ChainOfFold(h, leaf, proof);
  }

  /** `verifyMerkleProof`; `leafIndex` is not read by the source and is not a parameter here. */
  method VerifyMerkleProof(h: Hash, leaf: Bytes, proof: seq<Bytes>, merkleRoot: Bytes)
    returns (accepted: bool)
    ensures accepted <==> Fold(h, leaf, proof) == merkleRoot
    ensures accepted <==> exists nodes :: IsChain(h, leaf, proof, merkleRoot, nodes)
  {
    var computedHash := leaf;
    for i := 0 to |proof|
      invariant computedHash == Fold(h, leaf, proof[..i])
    {
      assert proof[..i + 1][..i] == proof[..i];
      computedHash := h(computedHash + proof[i]);
    }
    assert proof[..|proof|] == proof;
    accepted := computedHash == merkleRoot;
    FoldIffChain(h, leaf, proof, merkleRoot);
  }

  /**
   * Two accepted proofs of equal length for one root, from leaves of equal length (commitments
   * are all 32 bytes), agree on the leaf and on every element, or exhibit a hash collision.
   * Elements may be of any length.
   */
  lemma {:induction false} MerkleProofIsBinding(
      h: Hash, leaf: Bytes, proof: seq<Bytes>, leaf': Bytes, proof': seq<Bytes>)
    returns (x: Bytes, y: Bytes)
    requires IsDigest(h)
    requires |leaf| == |leaf'| && |proof| == |proof'|
    requires Fold(h, leaf, proof) == Fold(h, leaf', proof')
    ensures (leaf == leaf' && proof == proof') || Collision(h, x, y)
    decreases |proof|
  {
    x, y := [], [];
    if proof != [] {
      var n := |proof| - 1;
      var node, node' := Fold(h, leaf, proof[..n]), Fold(h, leaf', proof'[..n]);
      assert |node| == |node'|;
      x, y := node + proof[n], node' + proof'[n];
      if x == y {
        assert node == x[..|node|] == y[..|node|] == node';
        assert proof[n] == x[|node|..] == y[|node|..] == proof'[n];
        x, y := MerkleProofIsBinding(h, leaf, proof[..n], leaf', proof'[..n]);
        assert proof == proof[..n] + [proof[n]] && proof' == proof'[..n] + [proof'[n]];
      }
    }
  }

  /** Folding along two path pieces is folding along the whole path. */
  lemma {:induction false} FoldAppend(h: Hash, leaf: Bytes, p: seq<Bytes>, q: seq<Bytes>)
    ensures Fold(h, leaf, p + q) == Fold(h, Fold(h, leaf, p), q)
    decreases |q|
  {
    if q == [] {
      assert p + q == p;
    } else {
      var n := |q| - 1;
      FoldAppend(h, leaf, p, q[..n]);
      assert (p + q)[..|p + q| - 1] == p + q[..n];
    }
  }

  // ----- Payment proofs -----

  datatype Proof = Proof(
    commitmentHash: Bytes, amountHash: Bytes, salt: Bytes, merkleProof: seq<Bytes>, leafIndex: int)

  ghost predicate Accepts(h: Hash, proof: Proof, minimumAmount: int, merkleRoot: Bytes) {
    && CommitsTo(h, proof.amountHash, minimumAmount, proof.salt)
    && Fold(h, proof.commitmentHash, proof.merkleProof) == merkleRoot
  }

  /**
   * `createZKPaymentProof` with the salt and the path its random source yields; None when an amount
   * does not fit the 64-bit write. The proof commits to the amount, and is accepted for the minimum
   * wherever its path leads: no matter whether the amount reaches the minimum.
   */
  method CreatePaymentProof(
      h: Hash, amount: int, minimumAmount: int, salt: Bytes, path: seq<Bytes>, leafIndex: int)
    returns (proof: Option<Proof>)
    ensures proof.Some? <==> 0 <= amount < AMOUNT_LIMIT && 0 <= minimumAmount < AMOUNT_LIMIT
    ensures proof.Some? ==>
              && proof.value.salt == salt && proof.value.merkleProof == path && proof.value.leafIndex == leafIndex
              && CommitsTo(h, proof.value.commitmentHash, amount, salt)
              && Accepts(h, proof.value, minimumAmount, Fold(h, proof.value.commitmentHash, path))
  {
    var commitmentHash := HashAmountWithSalt(h, amount, salt);
    if commitmentHash.None? {
      return None;
    }
    var amountHash := HashAmountWithSalt(h, minimumAmount, salt);
    if amountHash.None? {
      return None;
    }
    return Some(Proof(commitmentHash.value, amountHash.value, salt, path, leafIndex));
  }

  /**
   * An inner node of the path passes for the commitment, with the rest of the path: without a
   * fixed length a proof does not bind its commitment.
   */
  lemma InnerNodeIsAccepted(
      h: Hash, proof: Proof, p: seq<Bytes>, q: seq<Bytes>, minimumAmount: int, merkleRoot: Bytes)
    requires proof.merkleProof == p + q
    ensures var inner := proof.(commitmentHash := Fold(h, proof.commitmentHash, p), merkleProof := q);
            Accepts(h, inner, minimumAmount, merkleRoot) <==> Accepts(h, proof, minimumAmount, merkleRoot)
  {
    FoldAppend(h, proof.commitmentHash, p, q);
  }

  /** `verifyZKPaymentProof`; None when the minimum amount does not fit the 64-bit write. */
  method VerifyPaymentProof(h: Hash, proof: Proof, minimumAmount: int, merkleRoot: Bytes)
    returns (accepted: Option<bool>)
    ensures accepted.Some? <==> 0 <= minimumAmount < AMOUNT_LIMIT
    ensures accepted.Some? ==> (accepted.value <==> Accepts(h, proof, minimumAmount, merkleRoot))
    ensures accepted.Some? ==> (accepted.value <==>
              && CommitsTo(h, proof.amountHash, minimumAmount, proof.salt)
              && LeadsTo(h, proof.commitmentHash, proof.merkleProof, merkleRoot))
  {
    FoldIffChain(h, proof.commitmentHash, proof.merkleProof, merkleRoot);
    var expected := HashAmountWithSalt(h, minimumAmount, proof.salt);
    if expected.None? {
      return None;
    }
    if proof.amountHash != expected.value {
      if CommitsTo(h, proof.amountHash, minimumAmount, proof.salt) {
        CommitmentIsDetermined(h, proof.amountHash, expected.value, minimumAmount, proof.salt);
      }
      return Some(false);
    }
    var ok := VerifyMerkleProof(h, proof.commitmentHash, proof.merkleProof, merkleRoot);
    return Some(ok);
  }

  /**
   * Two accepted payment proofs for one root with paths of equal length and the same amount hash
   * agree on everything the verifier reads, or exhibit a collision.
   */
  lemma AcceptedProofsAgree(h: Hash, p: Proof, m: int, p': Proof, m': int, merkleRoot: Bytes)
    returns (x: Bytes, y: Bytes)
    requires IsDigest(h)
    requires Accepts(h, p, m, merkleRoot) && Accepts(h, p', m', merkleRoot)
    requires p.amountHash == p'.amountHash
    requires |p.commitmentHash| == |p'.commitmentHash| && |p.merkleProof| == |p'.merkleProof|
    ensures (m == m' && p.(leafIndex := 0) == p'.(leafIndex := 0)) || Collision(h, x, y)
  {
    x, y := CommitmentIsBinding(h, m, p.salt, m', p'.salt, p.amountHash);
    if m == m' && p.salt == p'.salt {
      x, y := MerkleProofIsBinding(
        h, p.commitmentHash, p.merkleProof, p'.commitmentHash, p'.merkleProof);
    }
  }

  // ----- Hexadecimal and serialisation -----

  /** The lower-case hexadecimal digit of value `v`. */
  function HexDigit(v: int): char
    requires 0 <= v < 16
  {
    if v < 10 then ('0' as int + v) as char else ('a' as int + v - 10) as char
  }

  /** Value of a hexadecimal digit of either case. */
  function DigitValue(c: char): (v: Option<int>)
    ensures v.Some? ==> 0 <= v.value < 16
  {
    if '0' <= c <= '9' then Some(c as int - '0' as int)
    else if 'a' <= c <= 'f' then Some(c as int - 'a' as int + 10)
    else if 'A' <= c <= 'F' then Some(c as int - 'A' as int + 10)
    else None
  }

  /** `bufferToHex`: two lower-case digits per byte. */
  function BufferToHex(b: Bytes): string {
    if b == [] then "" else [HexDigit(b[0] / 16), HexDigit(b[0] % 16)] + BufferToHex(b[1..])
  }

  /**
   * `hexToBuffer`: Node decodes digit pairs and silently stops at the first pair that is not
   * hexadecimal; an odd digit at the end is dropped.
   */
  function HexToBuffer(s: string): Bytes {
    if |s| < 2 || DigitValue(s[0]).None? || DigitValue(s[1]).None? then []
    else [DigitValue(s[0]).value * 16 + DigitValue(s[1]).value] + HexToBuffer(s[2..])
  }

  lemma {:induction false} HexRoundTrip(b: Bytes)
    ensures HexToBuffer(BufferToHex(b)) == b
  {
    if b != [] {
      assert BufferToHex(b)[2..] == BufferToHex(b[1..]);
      HexRoundTrip(b[1..]);
      assert b == [b[0]] + b[1..];
    }
  }

  /** Byte i is written as its two lower-case digits, the high one first. */
  lemma {:induction false} HexDigitsOfByte(b: Bytes, i: nat)
    requires i < |b|
    ensures |BufferToHex(b)| == 2 * |b|
    ensures BufferToHex(b)[2 * i] == "0123456789abcdef"[b[i] / 16]
    ensures BufferToHex(b)[2 * i + 1] == "0123456789abcdef"[b[i] % 16]
  {
    if |b| > 1 {
      HexDigitsOfByte(b[1..], if i > 0 then i - 1 else 0);
    }
    DigitOf(b[0] / 16);
    DigitOf(b[0] % 16);
  }

  lemma DigitOf(v: int)
    requires 0 <= v < 16
    ensures HexDigit(v) == "0123456789abcdef"[v]
  {}

  predicate IsHexDigit(c: char) {
    '0' <= c <= '9' || 'a' <= c <= 'f' || 'A' <= c <= 'F'
  }

  /** Decoding goes on for as long as there are pairs of hexadecimal digits of either case. */
  lemma {:induction false} DecodesLeadingPairs(s: string, n: nat)
    ensures n <= |HexToBuffer(s)| <==> 2 * n <= |s| && forall i :: 0 <= i < 2 * n ==> IsHexDigit(s[i])
    decreases n
  {
    if n > 0 && |s| >= 2 {
      DecodesLeadingPairs(s[2..], n - 1);
      assert forall i :: 2 <= i < |s| ==> s[i] == s[2..][i - 2];
      assert forall i :: 0 <= i < |s| - 2 ==> s[2..][i] == s[i + 2];
    }
  }

  function LowerCase(c: char): char {
    if 'A' <= c <= 'F' then c + ' ' else c
  }

  /** Byte i is that of pair i, whatever the case of its digits. */
  lemma {:induction false} DecodesPair(s: string, i: nat)
    requires i < |HexToBuffer(s)|
    ensures 2 * i + 1 < |s|
    ensures "0123456789abcdef"[HexToBuffer(s)[i] / 16] == LowerCase(s[2 * i])
    ensures "0123456789abcdef"[HexToBuffer(s)[i] % 16] == LowerCase(s[2 * i + 1])
    decreases i
  {
    if i > 0 {
      DecodesPair(s[2..], i - 1);
      assert HexToBuffer(s)[i] == HexToBuffer(s[2..])[i - 1];
      assert s[2..][2 * (i - 1)] == s[2 * i] && s[2..][2 * (i - 1) + 1] == s[2 * i + 1];
    } else {
      DigitsOfPair(s[0], s[1], HexToBuffer(s)[0]);
    }
  }

  lemma DigitsOfPair(a: char, b: char, byte: int)
    requires DigitValue(a).Some? && DigitValue(b).Some?
    requires byte == DigitValue(a).value * 16 + DigitValue(b).value
    ensures 0 <= byte < 256
    ensures "0123456789abcdef"[byte / 16] == LowerCase(a) && "0123456789abcdef"[byte % 16] == LowerCase(b)
  {
    DigitOfChar(a);
    DigitOfChar(b);
    assert byte / 16 == DigitValue(a).value && byte % 16 == DigitValue(b).value;
  }

  lemma DigitOfChar(c: char)
    requires DigitValue(c).Some?
    ensures "0123456789abcdef"[DigitValue(c).value] == LowerCase(c)
  {
    DigitOf(DigitValue(c).value);
  }

  predicate CanonicalHex(s: string) {
    |s| % 2 == 0 && forall i :: 0 <= i < |s| ==> '0' <= s[i] <= '9' || 'a' <= s[i] <= 'f'
  }

  /** Decoding then encoding gives back exactly the even-length lower-case strings. */
  lemma {:induction false} HexReencode(s: string)
    ensures BufferToHex(HexToBuffer(s)) == s <==> CanonicalHex(s)
  {
    if |s| < 2 || DigitValue(s[0]).None? || DigitValue(s[1]).None? {
      assert BufferToHex(HexToBuffer(s)) == "";
    } else {
      var rest := BufferToHex(HexToBuffer(s[2..]));
      HexReencode(s[2..]);
      EncodeByte(DigitValue(s[0]).value, DigitValue(s[1]).value, HexToBuffer(s[2..]));
      CanonicalSplit(s);
      var head := [HexDigit(DigitValue(s[0]).value), HexDigit(DigitValue(s[1]).value)];
      SplitPair(head, rest, s);
      HeadIsCanonical(s[0], s[1]);
    }
  }

  lemma HeadIsCanonical(a: char, b: char)
    requires DigitValue(a).Some? && DigitValue(b).Some?
    ensures [HexDigit(DigitValue(a).value), HexDigit(DigitValue(b).value)] == [a, b] <==> CanonicalHex([a, b])
  {}

  lemma SplitPair(head: string, rest: string, s: string)
    requires |head| == 2 <= |s|
    ensures head + rest == s <==> head == [s[0], s[1]] && rest == s[2..]
  {
    assert s == [s[0], s[1]] + s[2..];
    assert (head + rest)[..2] == head && (head + rest)[2..] == rest;
    assert s[..2] == [s[0], s[1]];
  }

  lemma EncodeByte(v: int, w: int, rest: Bytes)
    requires 0 <= v < 16 && 0 <= w < 16
    ensures BufferToHex([v * 16 + w] + rest) == [HexDigit(v), HexDigit(w)] + BufferToHex(rest)
  {
    var b: Byte := v * 16 + w;
    assert b / 16 == v && b % 16 == w;
    assert ([b] + rest)[1..] == rest;
  }

  lemma CanonicalSplit(s: string)
    requires |s| >= 2
    ensures CanonicalHex(s) <==> CanonicalHex([s[0], s[1]]) && CanonicalHex(s[2..])
  {
    assert forall i :: 2 <= i < |s| ==> s[i] == s[2..][i - 2];
    assert forall i :: 0 <= i < |s| - 2 ==> s[2..][i] == s[i + 2];
    assert [s[0], s[1]][0] == s[0] && [s[0], s[1]][1] == s[1];
  }

  datatype WireProof = WireProof(
    commitmentHash: string, amountHash: string, salt: string, merkleProof: seq<string>,
    leafIndex: int)

  function Serialize(proof: Proof): WireProof {
    WireProof(
      BufferToHex(proof.commitmentHash), BufferToHex(proof.amountHash), BufferToHex(proof.salt),
      seq(|proof.merkleProof|, i requires 0 <= i < |proof.merkleProof| =>
        BufferToHex(proof.merkleProof[i])),
      proof.leafIndex)
  }

  function Deserialize(data: WireProof): Proof {
    Proof(
      HexToBuffer(data.commitmentHash), HexToBuffer(data.amountHash), HexToBuffer(data.salt),
      seq(|data.merkleProof|, i requires 0 <= i < |data.merkleProof| =>
        HexToBuffer(data.merkleProof[i])),
      data.leafIndex)
  }

  /** On the wire each field is the hexadecimal form of the field with its name. */
  lemma WireFields(proof: Proof)
    ensures var wire := Serialize(proof);
            && HexToBuffer(wire.commitmentHash) == proof.commitmentHash
            && HexToBuffer(wire.amountHash) == proof.amountHash
            && HexToBuffer(wire.salt) == proof.salt
            && |wire.merkleProof| == |proof.merkleProof|
            && (forall i :: 0 <= i < |proof.merkleProof| ==> HexToBuffer(wire.merkleProof[i]) == proof.merkleProof[i])
            && wire.leafIndex == proof.leafIndex
  {
    HexRoundTrip(proof.commitmentHash);
    HexRoundTrip(proof.amountHash);
    HexRoundTrip(proof.salt);
    forall i | 0 <= i < |proof.merkleProof|
      ensures HexToBuffer(BufferToHex(proof.merkleProof[i])) == proof.merkleProof[i]
    {
      HexRoundTrip(proof.merkleProof[i]);
    }
  }

  /** Every proof survives transmission, so the receiver's verdict is the sender's. */
  lemma SerializationRoundTrip(proof: Proof)
    ensures Deserialize(Serialize(proof)) == proof
  {
    WireFields(proof);
    assert Deserialize(Serialize(proof)).merkleProof == proof.merkleProof;
  }
}
