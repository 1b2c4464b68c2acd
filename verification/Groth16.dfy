/** Groth16 verification over the alt_bn128 system calls
    (programs/holanc-verifier/src/lib.rs).  The encodings are those of the
    Specification sections of EIP-196 and EIP-197. */
module Groth16 {
  import opened Base
  import opened Radix
  import opened NegateG1
  import opened ScalarField

  const G2_SIZE: nat := 128
  const PAIR_SIZE: nat := G1_SIZE + G2_SIZE
  const MAX_PUBLIC_INPUTS: nat := 8

  /** An affine point over the base field; (0, 0) is the point at infinity. */
  datatype G1 = G1(x: nat, y: nat)

  const INFINITY: G1 := G1(0, 0)

  function Neg(p: G1): G1 {
    G1(p.x, if p.y == 0 || p.y >= Q then p.y else Q - p.y)
  }

  function Chunk(input: seq<byte>, k: nat): seq<byte>
    requires (k + 1) * PAIR_SIZE <= |input|
  {
    input[k * PAIR_SIZE..(k + 1) * PAIR_SIZE]
  }

  /** Elements of the second group and of the target group, told apart by number. */
  type G2 = nat
  type GT = nat

  /** The groups and the pairing, as far as the program can observe them. */
  datatype Curve = Curve(
    onCurve: (nat, nat) -> bool,
    add: (G1, G1) -> G1,
    mul: (nat, G1) -> G1,
    decodeG2: seq<byte> -> Option<G2>,
    pair: (G1, G2) -> GT,
    times: (GT, GT) -> GT,
    one: GT)
  {
    predicate Point(p: G1) {
      p.x < Q && p.y < Q && (p == INFINITY || onCurve(p.x, p.y))
    }

    predicate AddClosed(p: G1, q: G1) { Point(p) && Point(q) ==> Point(add(p, q)) }

    predicate MulClosed(k: nat, p: G1) { Point(p) ==> Point(mul(k, p)) }

    predicate MulReduces(k: nat, p: G1) { Point(p) ==> mul(k, p) == mul(Reduced(k), p) }

    predicate AddAssociative(p: G1, q: G1, r: G1) {
      Point(p) && Point(q) && Point(r) ==> add(add(p, q), r) == add(p, add(q, r))
    }

    predicate AddInfinity(p: G1) { Point(p) ==> add(p, INFINITY) == p }

    /** The curve is symmetric, and no point but infinity has ordinate 0. */
    predicate Symmetric(x: nat, y: nat) {
      (0 < y < Q && onCurve(x, y) ==> onCurve(x, Q - y)) && !onCurve(x, 0)
    }

    predicate TimesAssociative(a: GT, b: GT, d: GT) { times(times(a, b), d) == times(a, times(b, d)) }

    predicate TimesCommutative(a: GT, b: GT) { times(a, b) == times(b, a) }

    predicate TimesOne(a: GT) { times(one, a) == a }

    predicate PairNegates(p: G1, b: G2) { Point(p) ==> times(pair(Neg(p), b), pair(p, b)) == one }

    /** What the program relies on: G1 is a monoid closed under scaling by numbers modulo
        the group order, GT is a commutative monoid, and the pairing turns negation into
        inversion. */
    ghost predicate Laws() {
      && (forall p, q :: AddClosed(p, q))
      && (forall k, p :: MulClosed(k, p)) && (forall k, p :: MulReduces(k, p))
      && (forall p, q, r :: AddAssociative(p, q, r))
      && (forall p :: AddInfinity(p))
      && (forall x, y :: Symmetric(x, y))
      && (forall a, b, d :: TimesAssociative(a, b, d))
      && (forall a, b :: TimesCommutative(a, b))
      && (forall a :: TimesOne(a))
      && (forall p, b :: PairNegates(p, b))
    }

    // ----- Encodings -----

    function DecodeG1(bytes: seq<byte>): (p: Option<G1>)
      requires |bytes| == G1_SIZE
      ensures p.Some? ==> Point(p.value)
    {
      var p := G1(X(bytes), Y(bytes));
      if Point(p) then Some(p) else None
    }

    function EncodeG1(p: G1): (bytes: seq<byte>)
      ensures |bytes| == G1_SIZE
    {
      ToBytes(p.x, 32) + ToBytes(p.y, 32)
    }

    // ----- The three system calls -----

    function Addition(input: seq<byte>): (r: Option<seq<byte>>)
      requires |input| == 2 * G1_SIZE
      ensures r.Some? ==> |r.value| == G1_SIZE
    {
      var p, q := DecodeG1(input[..G1_SIZE]), DecodeG1(input[G1_SIZE..]);
      if p.Some? && q.Some? then Some(EncodeG1(add(p.value, q.value))) else None
    }

    function Multiplication(input: seq<byte>): (r: Option<seq<byte>>)
      requires |input| == G1_SIZE + 32
      ensures r.Some? ==> |r.value| == G1_SIZE
    {
      var p := DecodeG1(input[..G1_SIZE]);
      if p.Some? then Some(EncodeG1(mul(BigEndian(input[G1_SIZE..]), p.value))) else None
    }

    /** Product of the pairings of the first `n` chunks. */
    function PairingProduct(input: seq<byte>, n: nat): Option<GT>
      requires n * PAIR_SIZE <= |input|
    {
      if n == 0 then Some(one) else
        var chunk := Chunk(input, n - 1);
        var p, b := DecodeG1(chunk[..G1_SIZE]), decodeG2(chunk[G1_SIZE..]);
        var rest := PairingProduct(input, n - 1);
        if rest.Some? && p.Some? && b.Some? then Some(times(rest.value, pair(p.value, b.value))) else None
    }

    /** Returns the word 1 when the product is the identity, 0 otherwise. */
    function Pairing(input: seq<byte>): Option<seq<byte>>
      requires |input| % PAIR_SIZE == 0
    {
      var product := PairingProduct(input, |input| / PAIR_SIZE);
      if product.None? then None
      else Some(ToBytes(if product.value == one then 1 else 0, 32))
    }
  }

  lemma EncodingRoundTrip(c: Curve, p: G1)
    requires c.Point(p)
    ensures c.DecodeG1(c.EncodeG1(p)) == Some(p)
  {
    PrimeBrackets();
    var bytes := c.EncodeG1(p);
    assert bytes[..32] == ToBytes(p.x, 32) && bytes[32..] == ToBytes(p.y, 32);
    ToBytesValue(p.x, 32);
    ToBytesValue(p.y, 32);
  }

  // ----- Verification keys -----

  datatype VerificationKey = VerificationKey(
    alphaG1: seq<byte>, betaG2: seq<byte>, gammaG2: seq<byte>, deltaG2: seq<byte>,
    icLen: nat, ic: seq<seq<byte>>)
  {
    predicate Valid() {
      && |alphaG1| == G1_SIZE && |betaG2| == |gammaG2| == |deltaG2| == G2_SIZE
      && icLen <= |ic| == MAX_PUBLIC_INPUTS + 1
      && forall i :: 0 <= i < |ic| ==> |ic[i]| == G1_SIZE
    }
  }

  datatype VerifierError =
    TooManyIcPoints | PublicInputCountMismatch | Bn128MulFailed | Bn128AddFailed
    | Bn128PairingFailed | ProofVerificationFailed

  method InitializeVk(alphaG1: seq<byte>, betaG2: seq<byte>, gammaG2: seq<byte>, deltaG2: seq<byte>,
                      ic: seq<seq<byte>>)
    returns (r: Result<VerificationKey, VerifierError>)
    requires |alphaG1| == G1_SIZE && |betaG2| == |gammaG2| == |deltaG2| == G2_SIZE
    requires forall i :: 0 <= i < |ic| ==> |ic[i]| == G1_SIZE
    ensures r.Success? <==> |ic| <= 9
    ensures r.Failure? ==> r.error == TooManyIcPoints
    ensures r.Success? ==>
              var vk := r.value;
              && vk.Valid() && vk.icLen == |ic| && vk.ic[..vk.icLen] == ic
              && (vk.alphaG1, vk.betaG2, vk.gammaG2, vk.deltaG2) == (alphaG1, betaG2, gammaG2, deltaG2)
  {
    if |ic| > MAX_PUBLIC_INPUTS + 1 {
      return Failure(TooManyIcPoints);
    }
    var stored: seq<seq<byte>> := seq(MAX_PUBLIC_INPUTS + 1, _ => seq(G1_SIZE, _ => 0));
    for i := 0 to |ic|
      invariant |stored| == MAX_PUBLIC_INPUTS + 1
      invariant stored[..i] == ic[..i]
      invariant forall j :: 0 <= j < |stored| ==> |stored[j]| == G1_SIZE
    {
      stored := stored[i := ic[i]];
    }
    r := Success(VerificationKey(alphaG1, betaG2, gammaG2, deltaG2, |ic|, stored));
  }

  // ----- The statement that is verified -----

  ghost predicate IcDecode(c: Curve, vk: VerificationKey, n: nat)
    requires vk.Valid() && n <= vk.icLen
  {
    forall i :: 0 <= i < n ==> c.DecodeG1(vk.ic[i]).Some?
  }

  /** The sum of the first `n` public inputs times their points. */
  ghost function InputSum(c: Curve, vk: VerificationKey, inputs: seq<seq<byte>>, n: nat): G1
    requires vk.Valid() && n <= |inputs| && n < vk.icLen && IcDecode(c, vk, n + 1)
  {
    if n == 0 then INFINITY else
      c.add(InputSum(c, vk, inputs, n - 1), c.mul(BigEndian(inputs[n - 1]), c.DecodeG1(vk.ic[n]).value))
  }

  /** The first proof point.  The program only ever decodes its negation, so the
      ordinate q is read as 0; every other non-canonical ordinate is refused. */
  function ReadA(c: Curve, a: seq<byte>): Option<G1>
    requires |a| == G1_SIZE
  {
    var p := G1(X(a), if Y(a) == Q then 0 else Y(a));
    if c.Point(p) then Some(p) else None
  }

  ghost predicate WellEncoded(c: Curve, vk: VerificationKey,
                                      a: seq<byte>, b: seq<byte>, p: seq<byte>, n: nat)
    requires vk.Valid() && n < vk.icLen && |a| == |p| == G1_SIZE
  {
    && IcDecode(c, vk, n + 1)
    && ReadA(c, a).Some? && c.DecodeG1(p).Some? && c.DecodeG1(vk.alphaG1).Some?
    && c.decodeG2(b).Some? && c.decodeG2(vk.betaG2).Some?
    && c.decodeG2(vk.gammaG2).Some? && c.decodeG2(vk.deltaG2).Some?
  }

  /** e(A, B) = e(alpha, beta) * e(IC[0] + sum of inputs, gamma) * e(C, delta). */
  ghost predicate EquationHolds(c: Curve, vk: VerificationKey,
                                        a: seq<byte>, b: seq<byte>, p: seq<byte>, inputs: seq<seq<byte>>)
    requires vk.Valid() && |inputs| < vk.icLen && |a| == |p| == G1_SIZE && WellEncoded(c, vk, a, b, p, |inputs|)
  {
    var x := c.add(c.DecodeG1(vk.ic[0]).value, InputSum(c, vk, inputs, |inputs|));
    c.pair(ReadA(c, a).value, c.decodeG2(b).value)
    == c.times(c.times(c.pair(c.DecodeG1(vk.alphaG1).value, c.decodeG2(vk.betaG2).value),
                       c.pair(x, c.decodeG2(vk.gammaG2).value)),
               c.pair(c.DecodeG1(p).value, c.decodeG2(vk.deltaG2).value))
  }

  /** What makes the program accept a proof. */
  ghost predicate Accepts(c: Curve, vk: VerificationKey, a: seq<byte>, b: seq<byte>, p: seq<byte>,
                          inputs: seq<seq<byte>>)
    requires vk.Valid() && |a| == |p| == G1_SIZE
  {
    |inputs| + 1 == vk.icLen && WellEncoded(c, vk, a, b, p, |inputs|) && EquationHolds(c, vk, a, b, p, inputs)
  }

  // ----- Inputs count modulo the group order -----

  /** The inputs stand for the same field elements. */
  ghost predicate SameElements(xs: seq<seq<byte>>, ys: seq<seq<byte>>) {
    |xs| == |ys| && forall i :: 0 <= i < |xs| ==> Aliases(BigEndian(xs[i]), BigEndian(ys[i]))
  }

  lemma {:induction false} SumReduces(c: Curve, vk: VerificationKey, xs: seq<seq<byte>>, ys: seq<seq<byte>>, n: nat)
    requires c.Laws() && vk.Valid() && SameElements(xs, ys)
    requires n <= |xs| && n < vk.icLen && IcDecode(c, vk, n + 1)
    ensures InputSum(c, vk, xs, n) == InputSum(c, vk, ys, n)
  {
    if n > 0 {
      SumReduces(c, vk, xs, ys, n - 1);
      var point := c.DecodeG1(vk.ic[n]).value;
      assert c.MulReduces(BigEndian(xs[n - 1]), point) && c.MulReduces(BigEndian(ys[n - 1]), point);
    }
  }

  /** Nothing checks that an input is below the group order, so the verdict depends on the
      field elements alone: a proof accepted for some inputs is accepted for all their aliases. */
  lemma AliasesShareVerdict(c: Curve, vk: VerificationKey, a: seq<byte>, b: seq<byte>, p: seq<byte>,
                            xs: seq<seq<byte>>, ys: seq<seq<byte>>)
    requires c.Laws() && vk.Valid() && |a| == |p| == G1_SIZE && SameElements(xs, ys)
    ensures Accepts(c, vk, a, b, p, xs) <==> Accepts(c, vk, a, b, p, ys)
  {
    if |xs| + 1 == vk.icLen && WellEncoded(c, vk, a, b, p, |xs|) {
      SumReduces(c, vk, xs, ys, |xs|);
    }
  }

  function Encoded(words: seq<Word>): (inputs: seq<seq<byte>>)
    ensures |inputs| == |words|
  {
    seq(|words|, i requires 0 <= i < |words| => ToBytes(words[i], 32))
  }

  /** The same for inputs given as words of 32 bytes, against their canonical forms. */
  lemma VerdictIsOfElements(c: Curve, vk: VerificationKey, a: seq<byte>, b: seq<byte>, p: seq<byte>,
                            words: seq<Word>, canonical: seq<Word>)
    requires c.Laws() && vk.Valid() && |a| == |p| == G1_SIZE && |words| == |canonical|
    requires forall i :: 0 <= i < |words| ==> words[i] < Pow256(32) && canonical[i] == Reduced(words[i])
    ensures Accepts(c, vk, a, b, p, Encoded(words)) <==> Accepts(c, vk, a, b, p, Encoded(canonical))
  {
    forall i | 0 <= i < |words|
      ensures Aliases(BigEndian(Encoded(words)[i]), BigEndian(Encoded(canonical)[i]))
    {
      OrderBracket();
      ToBytesValue(words[i], 32);
      ToBytesValue(canonical[i], 32);
    }
    AliasesShareVerdict(c, vk, a, b, p, Encoded(words), Encoded(canonical));
  }

  // ----- The accumulation loop -----

  function BuildScalarMulInput(point: seq<byte>, scalar: seq<byte>): (input: seq<byte>)
    requires |point| == G1_SIZE && |scalar| == 32
    ensures |input| == G1_SIZE + 32 && input[..G1_SIZE] == point && input[G1_SIZE..] == scalar
  {
    point + scalar
  }

  function BuildPointAddInput(p: seq<byte>, q: seq<byte>): (input: seq<byte>)
    requires |p| == |q| == G1_SIZE
    ensures |input| == 2 * G1_SIZE && input[..G1_SIZE] == p && input[G1_SIZE..] == q
  {
    p + q
  }

  lemma {:induction false} InputSumIsPoint(
    c: Curve, vk: VerificationKey, inputs: seq<seq<byte>>, n: nat)
    requires c.Laws() && vk.Valid() && n <= |inputs| && n < vk.icLen && IcDecode(c, vk, n + 1)
    ensures c.Point(InputSum(c, vk, inputs, n))
  {
    if n > 0 {
      InputSumIsPoint(c, vk, inputs, n - 1);
      var point := c.DecodeG1(vk.ic[n]).value;
      assert c.MulClosed(BigEndian(inputs[n - 1]), point);
      assert c.AddClosed(InputSum(c, vk, inputs, n - 1), c.mul(BigEndian(inputs[n - 1]), point));
    }
  }

  /** One round of the loop: two system calls, which decode the accumulator and the
      next point and fail when either is not a point. */
  method Accumulate(c: Curve, vkX: seq<byte>, ic: seq<byte>, input: seq<byte>)
    returns (r: Result<seq<byte>, VerifierError>)
    requires c.Laws() && |vkX| == |ic| == G1_SIZE && |input| == 32
    ensures r.Success? <==> c.DecodeG1(vkX).Some? && c.DecodeG1(ic).Some?
    ensures r.Failure? ==> r.error == if c.DecodeG1(ic).None? then Bn128MulFailed else Bn128AddFailed
    ensures r.Success? ==>
              && |r.value| == G1_SIZE
              && c.DecodeG1(r.value)
                 == Some(c.add(c.DecodeG1(vkX).value, c.mul(BigEndian(input), c.DecodeG1(ic).value)))
  {
    var mulResult := c.Multiplication(BuildScalarMulInput(ic, input));
    if mulResult.None? {
      return Failure(Bn128MulFailed);
    }
    var term := c.mul(BigEndian(input), c.DecodeG1(ic).value);
    assert c.MulClosed(BigEndian(input), c.DecodeG1(ic).value);
    EncodingRoundTrip(c, term);
    var addResult := c.Addition(BuildPointAddInput(vkX, mulResult.value));
    if addResult.None? {
      return Failure(Bn128AddFailed);
    }
    assert c.AddClosed(c.DecodeG1(vkX).value, term);
    EncodingRoundTrip(c, c.add(c.DecodeG1(vkX).value, term));
    r := Success(addResult.value);
  }

  /** After `i` rounds the accumulator is IC[0] plus the sum of the first `i` inputs. */
  ghost predicate Accumulated(c: Curve, vk: VerificationKey, inputs: seq<seq<byte>>, i: nat, vkX: seq<byte>)
    requires vk.Valid() && i <= |inputs| < vk.icLen
  {
    && |vkX| == G1_SIZE
    && (if i == 0 then vkX == vk.ic[0] else
          && IcDecode(c, vk, i + 1)
          && c.DecodeG1(vkX) == Some(c.add(c.DecodeG1(vk.ic[0]).value, InputSum(c, vk, inputs, i))))
  }

  /** The accumulator decodes exactly when every point used so far does. */
  lemma AccumulatedDecodes(c: Curve, vk: VerificationKey, inputs: seq<seq<byte>>, i: nat, vkX: seq<byte>)
    requires vk.Valid() && i <= |inputs| < vk.icLen && Accumulated(c, vk, inputs, i, vkX)
    ensures c.DecodeG1(vkX).Some? <==> IcDecode(c, vk, i + 1)
  {}

  lemma AccumulatedStep(c: Curve, vk: VerificationKey, inputs: seq<seq<byte>>, i: nat, vkX: seq<byte>, next: seq<byte>)
    requires c.Laws() && vk.Valid() && i < |inputs| < vk.icLen && |inputs[i]| == 32
    requires Accumulated(c, vk, inputs, i, vkX)
    requires c.DecodeG1(vkX).Some? && c.DecodeG1(vk.ic[i + 1]).Some? && |next| == G1_SIZE
    requires c.DecodeG1(next)
             == Some(c.add(c.DecodeG1(vkX).value, c.mul(BigEndian(inputs[i]), c.DecodeG1(vk.ic[i + 1]).value)))
    ensures Accumulated(c, vk, inputs, i + 1, next)
  {
    assert IcDecode(c, vk, i + 1) && IcDecode(c, vk, i + 2);
    var first, sum := c.DecodeG1(vk.ic[0]).value, InputSum(c, vk, inputs, i);
    var input, point := BigEndian(inputs[i]), c.DecodeG1(vk.ic[i + 1]).value;
    InputSumIsPoint(c, vk, inputs, i);
    assert c.AddInfinity(first);
    assert c.DecodeG1(vkX).value == c.add(first, sum);
    assert c.MulClosed(input, point);
    assert c.AddAssociative(first, sum, c.mul(input, point));
  }

  /** With no public input no point is decoded here; otherwise the loop fails exactly when
      one of the points it needs is not on the curve.  Only the first addition can fail, on
      IC[0]; every other bad point is met by a multiplication. */
  method ComputeVkX(c: Curve, vk: VerificationKey, inputs: seq<seq<byte>>)
    returns (r: Result<seq<byte>, VerifierError>)
    requires c.Laws() && vk.Valid() && |inputs| < vk.icLen
    requires forall i :: 0 <= i < |inputs| ==> |inputs[i]| == 32
    ensures r.Success? ==> Accumulated(c, vk, inputs, |inputs|, r.value)
    ensures r.Success? <==> inputs == [] || IcDecode(c, vk, |inputs| + 1)
    ensures r.Failure? ==>
              r.error == if c.DecodeG1(vk.ic[1]).Some? && c.DecodeG1(vk.ic[0]).None? then Bn128AddFailed
                         else Bn128MulFailed
  {
    var vkX := vk.ic[0];
    for i := 0 to |inputs|
      invariant Accumulated(c, vk, inputs, i, vkX)
    {
      var next := Accumulate(c, vkX, vk.ic[i + 1], inputs[i]);
      if next.Failure? {
        AccumulatedDecodes(c, vk, inputs, i, vkX);
        return Failure(next.error);
      }
      AccumulatedStep(c, vk, inputs, i, vkX, next.value);
      vkX := next.value;
    }
    r := Success(vkX);
  }

  // ----- The pairing check -----

  /** The four chunks of the input are the pairs. */
  predicate LaidOut(input: seq<byte>, pairs: seq<(seq<byte>, seq<byte>)>) {
    |input| == 4 * PAIR_SIZE && |pairs| == 4 && forall k :: 0 <= k < 4 ==> Chunk(input, k) == pairs[k].0 + pairs[k].1
  }

  /** Four 192-byte chunks, each a G1 point followed by a G2 point. */
  method BuildPairingInput(pairs: seq<(seq<byte>, seq<byte>)>) returns (input: seq<byte>)
    requires |pairs| == 4
    requires forall k :: 0 <= k < 4 ==> |pairs[k].0| == G1_SIZE && |pairs[k].1| == G2_SIZE
    ensures |input| == 4 * PAIR_SIZE
    ensures forall k :: 0 <= k < 4 ==> Chunk(input, k) == pairs[k].0 + pairs[k].1
  {
    input := seq(4 * PAIR_SIZE, _ => 0);
    var offset := 0;
    for k := 0 to 4
      invariant offset == k * PAIR_SIZE && |input| == 4 * PAIR_SIZE
      invariant forall j :: 0 <= j < k ==> Chunk(input, j) == pairs[j].0 + pairs[j].1
    {
      var (g1, g2) := pairs[k];
      ghost var before := input;
      input := input[..offset] + (g1 + g2) + input[offset + PAIR_SIZE..];
      offset := offset + PAIR_SIZE;
      assert Chunk(input, k) == g1 + g2;
      forall j | 0 <= j < k ensures Chunk(input, j) == Chunk(before, j) {}
    }
  }

  /** The bytes produced by negation decode exactly when A can be read, and then to
      its negation. */
  lemma NegatedPoint(c: Curve, a: seq<byte>, n: seq<byte>)
    requires c.Laws() && |a| == |n| == G1_SIZE
    requires n[..32] == a[..32] && Y(n) == NegatedY(Y(a))
    ensures c.DecodeG1(n) == (if ReadA(c, a).Some? then Some(Neg(ReadA(c, a).value)) else None)
  {
    PrimeBrackets();
    BigEndianBound(a[32..]);
    var x, y := X(a), Y(a);
    assert c.Symmetric(x, y);
    if 0 < y < Q {
      assert c.Symmetric(x, Q - y);
    }
  }

  /** Moving one pairing to the other side of the equation. */
  lemma Rearrange(c: Curve, n: GT, a: GT, p: GT, q: GT, r: GT)
    requires c.Laws() && c.times(n, a) == c.one
    ensures c.times(c.times(c.times(c.times(c.one, n), p), q), r) == c.one
            <==> a == c.times(c.times(p, q), r)
  {
    var right := c.times(c.times(p, q), r);
    assert c.TimesOne(n) && c.TimesAssociative(n, p, q) && c.TimesAssociative(n, c.times(p, q), r);
    assert c.times(c.times(c.times(n, p), q), r) == c.times(n, right);
    assert c.TimesCommutative(n, a) && c.TimesAssociative(a, n, right) && c.TimesOne(right);
    assert c.TimesCommutative(a, c.one) && c.TimesOne(a);
  }

  lemma PairingOfFour(c: Curve, input: seq<byte>, pairs: seq<(seq<byte>, seq<byte>)>)
    requires |input| == 4 * PAIR_SIZE && |pairs| == 4
    requires forall k :: 0 <= k < 4 ==> |pairs[k].0| == G1_SIZE && |pairs[k].1| == G2_SIZE
    requires forall k :: 0 <= k < 4 ==> Chunk(input, k) == pairs[k].0 + pairs[k].1
    ensures (forall k :: 0 <= k < 4 ==> c.DecodeG1(pairs[k].0).Some? && c.decodeG2(pairs[k].1).Some?)
            <==> c.PairingProduct(input, 4).Some?
    ensures c.PairingProduct(input, 4).Some? ==>
              c.PairingProduct(input, 4).value
              == c.times(c.times(c.times(c.times(c.one, PairOf(c, pairs[0])), PairOf(c, pairs[1])),
                                 PairOf(c, pairs[2])), PairOf(c, pairs[3]))
  {
    ProductStep(c, input, 0, pairs[0]);
    ProductStep(c, input, 1, pairs[1]);
    ProductStep(c, input, 2, pairs[2]);
    ProductStep(c, input, 3, pairs[3]);
  }

  lemma ProductStep(c: Curve, input: seq<byte>, k: nat, pair: (seq<byte>, seq<byte>))
    requires (k + 1) * PAIR_SIZE <= |input| && |pair.0| == G1_SIZE && |pair.1| == G2_SIZE
    requires Chunk(input, k) == pair.0 + pair.1
    ensures var p, b := c.DecodeG1(pair.0), c.decodeG2(pair.1);
            var before := c.PairingProduct(input, k);
            c.PairingProduct(input, k + 1)
            == if before.Some? && p.Some? && b.Some? then Some(c.times(before.value, PairOf(c, pair))) else None
  {
    assert Chunk(input, k)[..G1_SIZE] == pair.0 && Chunk(input, k)[G1_SIZE..] == pair.1;
  }

  function PairOf(c: Curve, pair: (seq<byte>, seq<byte>)): GT
    requires |pair.0| == G1_SIZE
  {
    var p, b := c.DecodeG1(pair.0), c.decodeG2(pair.1);
    if p.Some? && b.Some? then c.pair(p.value, b.value) else c.one
  }

  // ----- The instruction -----

  /** A proof is accepted exactly when the number of inputs matches the key, every
      point is well encoded and the Groth16 equation holds. */
  method VerifyProof(c: Curve, vk: VerificationKey, a: seq<byte>, b: seq<byte>, p: seq<byte>,
                     inputs: seq<seq<byte>>)
    returns (r: Result<(), VerifierError>)
    requires c.Laws() && vk.Valid()
    requires |a| == |p| == G1_SIZE && |b| == G2_SIZE
    requires forall i :: 0 <= i < |inputs| ==> |inputs[i]| == 32
    ensures r.Success? <==> Accepts(c, vk, a, b, p, inputs)
    ensures r == Failure(PublicInputCountMismatch) <==> |inputs| + 1 != vk.icLen
    ensures r == Failure(ProofVerificationFailed) <==>
              && |inputs| + 1 == vk.icLen
              && WellEncoded(c, vk, a, b, p, |inputs|)
              && !EquationHolds(c, vk, a, b, p, inputs)
  {
    if |inputs| + 1 != vk.icLen {
      return Failure(PublicInputCountMismatch);
    }
    var vkX := ComputeVkX(c, vk, inputs);
    if vkX.Failure? {
      return Failure(vkX.error);
    }
    r := CheckPairing(c, vk, a, b, p, inputs, vkX.value);
  }

  /** Builds and checks e(-A, B) * e(alpha, beta) * e(vk_x, gamma) * e(C, delta) = 1. */
  method CheckPairing(c: Curve, vk: VerificationKey, a: seq<byte>, b: seq<byte>, p: seq<byte>,
                      ghost inputs: seq<seq<byte>>, vkX: seq<byte>)
    returns (r: Result<(), VerifierError>)
    requires c.Laws() && vk.Valid() && |inputs| + 1 == vk.icLen
    requires |a| == |p| == G1_SIZE && |b| == G2_SIZE
    requires Accumulated(c, vk, inputs, |inputs|, vkX)
    ensures r == if !WellEncoded(c, vk, a, b, p, |inputs|) then Failure(Bn128PairingFailed)
                 else if EquationHolds(c, vk, a, b, p, inputs) then Success(())
                 else Failure(ProofVerificationFailed)
  {
    var negA, _ := Negate(a);
    var input := BuildPairingInput(CheckedPairs(vk, negA, b, vkX, p));
    var product := c.Pairing(input);
    PairingWord(c, input, 4);
    CheckReads(c, vk, a, b, p, inputs, negA, vkX, input);
    if product.None? {
      return Failure(Bn128PairingFailed);
    }
    CheckMeansEquation(c, vk, a, b, p, inputs, negA, vkX, input);
    if product.value != ToBytes(1, 32) {
      return Failure(ProofVerificationFailed);
    }
    r := Success(());
  }

  /** The pairs laid out for the check. */
  function CheckedPairs(vk: VerificationKey, negA: seq<byte>, b: seq<byte>, vkX: seq<byte>, p: seq<byte>)
    : seq<(seq<byte>, seq<byte>)>
  {
    [(negA, b), (vk.alphaG1, vk.betaG2), (vkX, vk.gammaG2), (p, vk.deltaG2)]
  }

  /** The bytes handed to the pairing check, for a proof and an accumulated point. */
  ghost predicate CheckedInput(c: Curve, vk: VerificationKey, a: seq<byte>, b: seq<byte>, p: seq<byte>,
                               inputs: seq<seq<byte>>, negA: seq<byte>, vkX: seq<byte>, input: seq<byte>)
    requires c.Laws() && vk.Valid() && |inputs| + 1 == vk.icLen
  {
    && |a| == |p| == |negA| == G1_SIZE && |b| == G2_SIZE && |input| == 4 * PAIR_SIZE
    && negA[..32] == a[..32] && Y(negA) == NegatedY(Y(a))
    && Accumulated(c, vk, inputs, |inputs|, vkX)
    && LaidOut(input, CheckedPairs(vk, negA, b, vkX, p))
  }

  /** The pairing check reads its input exactly when everything is well encoded. */
  lemma CheckReads(c: Curve, vk: VerificationKey, a: seq<byte>, b: seq<byte>, p: seq<byte>,
                   inputs: seq<seq<byte>>, negA: seq<byte>, vkX: seq<byte>, input: seq<byte>)
    requires c.Laws() && vk.Valid() && |inputs| + 1 == vk.icLen
    requires CheckedInput(c, vk, a, b, p, inputs, negA, vkX, input)
    ensures c.PairingProduct(input, 4).Some? <==> WellEncoded(c, vk, a, b, p, |inputs|)
  {
    var pairs := CheckedPairs(vk, negA, b, vkX, p);
    PairingOfFour(c, input, pairs);
    NegatedPoint(c, a, negA);
    AccumulatedDecodes(c, vk, inputs, |inputs|, vkX);
    assert pairs[0] == (negA, b) && pairs[1] == (vk.alphaG1, vk.betaG2);
    assert pairs[2] == (vkX, vk.gammaG2) && pairs[3] == (p, vk.deltaG2);
  }

  /** The product is one exactly when the Groth16 equation holds. */
  lemma CheckMeansEquation(c: Curve, vk: VerificationKey, a: seq<byte>, b: seq<byte>, p: seq<byte>,
                           inputs: seq<seq<byte>>, negA: seq<byte>, vkX: seq<byte>, input: seq<byte>)
    requires c.Laws() && vk.Valid() && |inputs| + 1 == vk.icLen
    requires CheckedInput(c, vk, a, b, p, inputs, negA, vkX, input)
    requires WellEncoded(c, vk, a, b, p, |inputs|)
    ensures c.PairingProduct(input, 4).Some?
    ensures c.PairingProduct(input, 4).value == c.one <==> EquationHolds(c, vk, a, b, p, inputs)
  {
    CheckReads(c, vk, a, b, p, inputs, negA, vkX, input);
    var pairs := CheckedPairs(vk, negA, b, vkX, p);
    PairingOfFour(c, input, pairs);
    NegatedPoint(c, a, negA);
    assert pairs[0] == (negA, b) && pairs[1] == (vk.alphaG1, vk.betaG2);
    assert pairs[2] == (vkX, vk.gammaG2) && pairs[3] == (p, vk.deltaG2);
    var first, A := c.DecodeG1(vk.ic[0]).value, ReadA(c, a).value;
    assert c.AddInfinity(first);
    assert c.DecodeG1(vkX).value == c.add(first, InputSum(c, vk, inputs, |inputs|));
    assert c.PairNegates(A, c.decodeG2(b).value);
    Rearrange(c, PairOf(c, pairs[0]), c.pair(A, c.decodeG2(b).value),
              PairOf(c, pairs[1]), PairOf(c, pairs[2]), PairOf(c, pairs[3]));
  }

  /** What the word returned by the pairing check says. */
  lemma PairingWord(c: Curve, input: seq<byte>, n: nat)
    requires |input| == n * PAIR_SIZE
    ensures var product := c.PairingProduct(input, n);
            && (c.Pairing(input).Some? <==> product.Some?)
            && (product.Some? ==> (c.Pairing(input).value == ToBytes(1, 32) <==> product.value == c.one))
  {
    OneIsNotZero();
    assert |input| / PAIR_SIZE == n;
  }

  lemma OneIsNotZero()
    ensures ToBytes(1, 32) != ToBytes(0, 32)
  {
    ToBytesValue(1, 32);
    ToBytesValue(0, 32);
  }
}
