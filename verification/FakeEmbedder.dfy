/**
 * The fake embedder's arithmetic (packages/embed/src/fake.ts:70-116): two hashes seed a 128-bit
 * xorshift generator whose output is scaled to a unit vector. Words are 32 bits and wrap; the
 * components are reals, and the square root is exact.
 */
module FakeEmbedder {
  const EMBEDDING_DIMENSIONS: nat := 1536

  /** A text as its UTF-16 code units. */
  type Text = seq<bv16>

  // -------------------------------------------------------------------------------------------
  // The generator
  // -------------------------------------------------------------------------------------------

  datatype Words = Words(a: bv32, b: bv32, c: bv32, d: bv32)

  const ZERO := Words(0, 0, 0, 0)

  // `t ^= t << 11`, `t ^= t >>> 8` and `t ^ s ^ (s >>> 19)`, and what undoes each. The predicates say
  // the same of an argument and a result, so that the bit arithmetic is done once, on variables.

  function Left(t: bv32): bv32 {
    t ^ (t << 11)
  }

  function UnLeft(t: bv32): bv32 {
    t ^ (t << 11) ^ (t << 22)
  }

  function Right(t: bv32): bv32 {
    t ^ (t >> 8)
  }

  function UnRight(t: bv32): bv32 {
    t ^ (t >> 8) ^ (t >> 16) ^ (t >> 24)
  }

  function Join(t: bv32, s: bv32): bv32 {
    t ^ s ^ (s >> 19)
  }

  predicate IsLeft(t: bv32, x: bv32) {
    x == t ^ (t << 11)
  }

  predicate IsUnLeft(t: bv32, x: bv32) {
    x == t ^ (t << 11) ^ (t << 22)
  }

  predicate IsRight(t: bv32, x: bv32) {
    x == t ^ (t >> 8)
  }

  predicate IsUnRight(t: bv32, x: bv32) {
    x == t ^ (t >> 8) ^ (t >> 16) ^ (t >> 24)
  }

  predicate IsJoin(t: bv32, s: bv32, x: bv32) {
    x == t ^ s ^ (s >> 19)
  }

  lemma LeftBits(t: bv32, x: bv32, y: bv32)
    requires IsLeft(t, x) && IsUnLeft(x, y)
    ensures y == t
  {
  }

  lemma UnLeftBits(t: bv32, x: bv32, y: bv32)
    requires IsUnLeft(t, x) && IsLeft(x, y)
    ensures y == t
  {
  }

  lemma RightBits(t: bv32, x: bv32, y: bv32)
    requires IsRight(t, x) && IsUnRight(x, y)
    ensures y == t
  {
  }

  lemma UnRightBits(t: bv32, x: bv32, y: bv32)
    requires IsUnRight(t, x) && IsRight(x, y)
    ensures y == t
  {
  }

  lemma JoinBits(t: bv32, s: bv32, x: bv32, y: bv32)
    requires IsJoin(t, s, x) && IsJoin(x, s, y)
    ensures y == t
  {
  }

  lemma Computed(t: bv32, s: bv32)
    ensures IsLeft(t, Left(t)) && IsUnLeft(t, UnLeft(t)) && IsRight(t, Right(t)) && IsUnRight(t, UnRight(t))
    ensures IsJoin(t, s, Join(t, s))
  {
  }

  lemma LeftIsUndone(t: bv32)
    ensures UnLeft(Left(t)) == t && Left(UnLeft(t)) == t
  {
    hide *;
    Computed(t, 0);
    Computed(Left(t), 0);
    Computed(UnLeft(t), 0);
    LeftBits(t, Left(t), UnLeft(Left(t)));
    UnLeftBits(t, UnLeft(t), Left(UnLeft(t)));
  }

  lemma RightIsUndone(t: bv32)
    ensures UnRight(Right(t)) == t && Right(UnRight(t)) == t
  {
    hide *;
    Computed(t, 0);
    Computed(Right(t), 0);
    Computed(UnRight(t), 0);
    RightBits(t, Right(t), UnRight(Right(t)));
    UnRightBits(t, UnRight(t), Right(UnRight(t)));
  }

  lemma JoinIsUndone(t: bv32, s: bv32)
    ensures Join(Join(t, s), s) == t
  {
    hide *;
    Computed(t, s);
    Computed(Join(t, s), s);
    JoinBits(t, s, Join(t, s), Join(Join(t, s), s));
  }

  function Next(w: Words): Words {
    Words(Join(Right(Left(w.d)), w.a), w.a, w.b, w.c)
  }

  /** The state one step earlier. */
  function Previous(w: Words): Words {
    Words(w.b, w.c, w.d, UnLeft(UnRight(Join(w.a, w.b))))
  }

  /** The step is a bijection on all 128-bit states. */
  lemma NextIsABijection(w: Words)
    ensures Previous(Next(w)) == w && Next(Previous(w)) == w
  {
    JoinIsUndone(Right(Left(w.d)), w.a);
    RightIsUndone(Left(w.d));
    LeftIsUndone(w.d);
    JoinIsUndone(w.a, w.b);
    RightIsUndone(Join(w.a, w.b));
    LeftIsUndone(UnRight(Join(w.a, w.b)));
    hide Left, UnLeft, Right, UnRight, Join;
  }

  lemma NextOfZero()
    ensures Next(ZERO) == ZERO
  {
  }

  function Steps(w: Words, n: nat): Words {
    if n == 0 then w else Next(Steps(w, n - 1))
  }

  /** No state but the all-zero one ever reaches it, and two different states never meet. */
  lemma {:induction false} StatesNeverMeet(v: Words, w: Words, n: nat)
    ensures Steps(v, n) == Steps(w, n) <==> v == w
    ensures Steps(w, n) == ZERO <==> w == ZERO
    decreases n
  {
    hide Next, Previous;
    if n > 0 {
      StatesNeverMeet(v, w, n - 1);
      NextIsABijection(Steps(v, n - 1));
      NextIsABijection(Steps(w, n - 1));
      NextIsABijection(ZERO);
      NextOfZero();
    }
  }

  /** Four outputs in a row are the whole state. */
  lemma FourOutputsAreTheState(w: Words)
    ensures Steps(w, 4) == Words(Steps(w, 4).a, Steps(w, 3).a, Steps(w, 2).a, Steps(w, 1).a)
  {
    hide Left, Right, Join;
    assert Steps(w, 1) == Next(w);
    assert Steps(w, 2) == Next(Steps(w, 1));
    assert Steps(w, 3) == Next(Steps(w, 2));
    assert Steps(w, 4) == Next(Steps(w, 3));
  }

  // -------------------------------------------------------------------------------------------
  // The seed
  // -------------------------------------------------------------------------------------------

  function TimesPrime(h: bv32): bv32 {
    h * 0x01000193
  }

  function Times33(h: bv32): bv32 {
    h * 33
  }

  function Mixed(h: bv32, u: bv32): bv32 {
    h ^ u
  }

  function Added(h: bv32, u: bv32): bv32 {
    h + u
  }

  function Wide(u: bv16): bv32 {
    u as bv32
  }

  /** One round: `hash ^= unit`, then `Math.imul(hash, 0x01000193) >>> 0`. */
  function Fnv1aRound(hash: bv32, unit: bv16): bv32 {
    TimesPrime(Mixed(hash, Wide(unit)))
  }

  /** One round: `(Math.imul(hash, 33) + unit) >>> 0`. */
  function Djb2Round(hash: bv32, unit: bv16): bv32 {
    Added(Times33(hash), Wide(unit))
  }

  function Fnv1a(text: Text): bv32 {
    if text == [] then 0x811c9dc5 else Fnv1aRound(Fnv1a(text[..|text| - 1]), text[|text| - 1])
  }

  function Djb2(text: Text): bv32 {
    if text == [] then 5381 else Djb2Round(Djb2(text[..|text| - 1]), text[|text| - 1])
  }

  // As above, each operation is named, and its bits are looked at once, on variables.

  predicate IsTimesPrime(h: bv32, x: bv32) {
    x == h * 0x01000193
  }

  predicate IsTimes33(h: bv32, x: bv32) {
    x == h * 33
  }

  predicate IsMixed(h: bv32, u: bv32, x: bv32) {
    x == h ^ u
  }

  predicate IsAdded(h: bv32, u: bv32, x: bv32) {
    x == h + u
  }

  lemma PrimeSpreads(h: bv32, k: bv32)
    ensures (h - k) * 0x01000193 == h * 0x01000193 - k * 0x01000193
  {
  }

  /** The prime is odd, so multiplying by it makes zero of nothing but zero. */
  lemma PrimeKeepsZero(d: bv32)
    requires d * 0x01000193 == 0
    ensures d == 0
  {
  }

  lemma ThirtyThreeSpreads(h: bv32, k: bv32)
    ensures (h - k) * 33 == h * 33 - k * 33
  {
  }

  lemma ThirtyThreeKeepsZero(d: bv32)
    requires d * 33 == 0
    ensures d == 0
  {
  }

  lemma TimesPrimeBits(h: bv32, k: bv32, x: bv32)
    requires IsTimesPrime(h, x) && IsTimesPrime(k, x)
    ensures h == k
  {
    PrimeSpreads(h, k);
    PrimeKeepsZero(h - k);
  }

  lemma Times33Bits(h: bv32, k: bv32, x: bv32)
    requires IsTimes33(h, x) && IsTimes33(k, x)
    ensures h == k
  {
    ThirtyThreeSpreads(h, k);
    ThirtyThreeKeepsZero(h - k);
  }

  lemma MixedBits(h: bv32, k: bv32, u: bv32, x: bv32)
    requires IsMixed(h, u, x) && IsMixed(k, u, x)
    ensures h == k
  {
  }

  lemma BitsMixed(h: bv32, k: bv32, u: bv32, x: bv32)
    requires IsMixed(u, h, x) && IsMixed(u, k, x)
    ensures h == k
  {
  }

  lemma AddedBits(h: bv32, k: bv32, u: bv32, x: bv32)
    requires IsAdded(h, u, x) && IsAdded(k, u, x)
    ensures h == k
  {
  }

  lemma BitsAdded(h: bv32, k: bv32, u: bv32, x: bv32)
    requires IsAdded(u, h, x) && IsAdded(u, k, x)
    ensures h == k
  {
  }

  lemma WideBits(u: bv16, v: bv16)
    requires Wide(u) == Wide(v)
    ensures u == v
  {
  }

  lemma Worked(h: bv32, u: bv32)
    ensures IsTimesPrime(h, TimesPrime(h)) && IsTimes33(h, Times33(h))
    ensures IsMixed(h, u, Mixed(h, u)) && IsAdded(h, u, Added(h, u))
  {
  }

  lemma RoundsAre(h: bv32, u: bv16)
    ensures Fnv1aRound(h, u) == TimesPrime(Mixed(h, Wide(u))) && Djb2Round(h, u) == Added(Times33(h), Wide(u))
  {
    hide TimesPrime, Mixed, Added, Times33, Wide;
  }

  lemma TimesPrimeIsInjective(x: bv32, y: bv32)
    requires TimesPrime(x) == TimesPrime(y)
    ensures x == y
  {
    hide *;
    Worked(x, 0);
    Worked(y, 0);
    TimesPrimeBits(x, y, TimesPrime(x));
  }

  lemma MixedIsInjective(h: bv32, k: bv32, u: bv32, v: bv32)
    requires Mixed(h, u) == Mixed(k, v) && (h == k || u == v)
    ensures h == k && u == v
  {
    hide *;
    Worked(h, u);
    Worked(k, v);
    if h == k {
      BitsMixed(u, v, h, Mixed(h, u));
    } else {
      MixedBits(h, k, u, Mixed(h, u));
    }
  }

  /** A round of the first hash loses nothing: neither of what was hashed before nor of the unit. */
  lemma Fnv1aRoundIsInjective(h: bv32, k: bv32, u: bv16, v: bv16)
    requires Fnv1aRound(h, u) == Fnv1aRound(k, v) && (h == k || u == v)
    ensures h == k && u == v
  {
    hide *;
    RoundsAre(h, u);
    RoundsAre(k, v);
    TimesPrimeIsInjective(Mixed(h, Wide(u)), Mixed(k, Wide(v)));
    MixedIsInjective(h, k, Wide(u), Wide(v));
    WideBits(u, v);
  }

  /** Nor does one of the second. */
  lemma Djb2RoundIsInjective(h: bv32, k: bv32, u: bv16, v: bv16)
    requires Djb2Round(h, u) == Djb2Round(k, v) && (h == k || u == v)
    ensures h == k && u == v
  {
    hide *;
    RoundsAre(h, u);
    RoundsAre(k, v);
    var x := Djb2Round(h, u);
    Worked(Times33(h), Wide(u));
    Worked(Times33(k), Wide(v));
    if h == k {
      BitsAdded(Wide(u), Wide(v), Times33(h), x);
      WideBits(u, v);
    } else {
      AddedBits(Times33(h), Times33(k), Wide(u), x);
      Worked(h, 0);
      Worked(k, 0);
      Times33Bits(h, k, Times33(h));
    }
  }

  /** Changing one code unit anywhere in a text changes both its hashes. */
  lemma {:induction false} OneUnitChangesBothHashes(before: Text, x: bv16, y: bv16, after: Text)
    requires x != y
    ensures Fnv1a(before + [x] + after) != Fnv1a(before + [y] + after)
    ensures Djb2(before + [x] + after) != Djb2(before + [y] + after)
    decreases |after|
  {
    var xs, ys := before + [x] + after, before + [y] + after;
    var n := |xs| - 1;
    hide Fnv1aRound, Djb2Round;
    if after == [] {
      assert xs[..n] == before && ys[..n] == before && xs[n] == x && ys[n] == y;
      if Fnv1a(xs) == Fnv1a(ys) { Fnv1aRoundIsInjective(Fnv1a(before), Fnv1a(before), x, y); }
      if Djb2(xs) == Djb2(ys) { Djb2RoundIsInjective(Djb2(before), Djb2(before), x, y); }
    } else {
      var init, u := after[..|after| - 1], after[|after| - 1];
      assert xs[..n] == before + [x] + init && ys[..n] == before + [y] + init && xs[n] == u && ys[n] == u;
      OneUnitChangesBothHashes(before, x, y, init);
      if Fnv1a(xs) == Fnv1a(ys) { Fnv1aRoundIsInjective(Fnv1a(xs[..n]), Fnv1a(ys[..n]), u, u); }
      if Djb2(xs) == Djb2(ys) { Djb2RoundIsInjective(Djb2(xs[..n]), Djb2(ys[..n]), u, u); }
    }
  }

  /** The hashes of "" and "a": for the first, the published values of 32-bit FNV-1a. */
  lemma KnownHashes()
    ensures Fnv1a([]) == 0x811c9dc5 && Fnv1a([97]) == 0xe40c292c
    ensures Djb2([]) == 5381 && Djb2([97]) == 177670
  {
    assert [97 as bv16][..0] == [];
  }

  function OrElse(hash: bv32, other: bv32): bv32 {
    if hash == 0 then other else hash
  }

  function Seed(text: Text): Words {
    Words(OrElse(Fnv1a(text), 0x9e3779b9), OrElse(Djb2(text), 0x85ebca6b), 0xc2b2ae35, 0x27d4eb2f)
  }

  /** For every text, at every step, the generator's state is not all zero. */
  lemma NeverAllZero(text: Text, n: nat)
    ensures Steps(Seed(text), n) != ZERO
  {
    hide Next, Fnv1a, Djb2, OrElse;
    StatesNeverMeet(ZERO, Seed(text), n);
  }

  // -------------------------------------------------------------------------------------------
  // The components
  // -------------------------------------------------------------------------------------------

  function Ratio(n: nat): real {
    (n as real) / 4294967295.0 - 0.5
  }

  function Component(word: bv32): real {
    Ratio(word as nat)
  }

  /** No component is zero, because 0xffffffff is odd. */
  lemma ComponentIsNotZero(word: bv32)
    ensures Square(Component(word)) > 0.0
  {
    RatioIsNotZero(word as nat);
    hide Ratio;
  }

  lemma RatioIsNotZero(n: nat)
    ensures Square(Ratio(n)) > 0.0
  {
    assert 2 * n != 4294967295;
    assert (2 * n) as real != 4294967295.0;
    var x := Ratio(n);
    assert 2.0 * 4294967295.0 * x == (2 * n) as real - 4294967295.0;
    assert x != 0.0;
  }

  /** And no two words give the same one. */
  lemma ComponentsDiffer(word: bv32, other: bv32)
    requires Component(word) == Component(other)
    ensures word == other
  {
    RatioIsInjective(word as nat, other as nat);
    assert (word as nat) as bv32 == word;
  }

  lemma RatioIsInjective(n: nat, m: nat)
    requires Ratio(n) == Ratio(m)
    ensures n == m
  {
    assert n as real == m as real;
  }

  /** The components before scaling: the generator's output from its first step on. */
  function Raw(w: Words, n: nat): seq<real> {
    if n == 0 then [] else Raw(w, n - 1) + [Component(Steps(w, n).a)]
  }

  lemma {:induction false} RawAt(w: Words, n: nat, k: nat)
    requires k < n
    ensures |Raw(w, n)| == n && Raw(w, n)[k] == Component(Steps(w, k + 1).a)
    decreases n
  {
    RawLength(w, n - 1);
    if k < n - 1 {
      RawAt(w, n - 1, k);
    }
  }

  lemma {:induction false} RawLength(w: Words, n: nat)
    ensures |Raw(w, n)| == n
    decreases n
  {
    if n > 0 {
      RawLength(w, n - 1);
    }
  }

  /** Two texts have the same components exactly when both hashes collide. */
  lemma SameComponentsExactlyOnTheSameSeed(text: Text, other: Text)
    ensures Raw(Seed(text), EMBEDDING_DIMENSIONS) == Raw(Seed(other), EMBEDDING_DIMENSIONS) <==> Seed(text) == Seed(other)
  {
    hide Seed, Next, Component, Raw;
    var v, w := Seed(text), Seed(other);
    if Raw(v, EMBEDDING_DIMENSIONS) == Raw(w, EMBEDDING_DIMENSIONS) {
      SameOutput(v, w, 0);
      SameOutput(v, w, 1);
      SameOutput(v, w, 2);
      SameOutput(v, w, 3);
      FourOutputsAreTheState(v);
      FourOutputsAreTheState(w);
      StatesNeverMeet(v, w, 4);
    }
  }

  lemma SameOutput(v: Words, w: Words, k: nat)
    requires k < EMBEDDING_DIMENSIONS && Raw(v, EMBEDDING_DIMENSIONS) == Raw(w, EMBEDDING_DIMENSIONS)
    ensures Steps(v, k + 1).a == Steps(w, k + 1).a
  {
    hide Component, Steps, Raw;
    RawAt(v, EMBEDDING_DIMENSIONS, k);
    RawAt(w, EMBEDDING_DIMENSIONS, k);
    ComponentsDiffer(Steps(v, k + 1).a, Steps(w, k + 1).a);
  }

  // -------------------------------------------------------------------------------------------
  // The length
  // -------------------------------------------------------------------------------------------

  function SquaredLength(xs: seq<real>): real {
    if xs == [] then 0.0 else SquaredLength(xs[..|xs| - 1]) + Square(xs[|xs| - 1])
  }

  function Square(x: real): real {
    x * x
  }

  function Times(x: real, scale: real): real {
    x * scale
  }

  /** `x => x * scale`, over the whole vector. */
  function Scaled(xs: seq<real>, scale: real): (ys: seq<real>)
    ensures |ys| == |xs| && forall i :: 0 <= i < |xs| ==> ys[i] == Times(xs[i], scale)
  {
    seq(|xs|, i requires 0 <= i < |xs| => Times(xs[i], scale))
  }

  lemma {:induction false} ScaledLength(xs: seq<real>, scale: real)
    ensures SquaredLength(Scaled(xs, scale)) == Times(SquaredLength(xs), Square(scale))
    decreases |xs|
  {
    hide Square, Times;
    if xs == [] {
      Squares(0.0, 0.0, scale);
    } else {
      var n := |xs| - 1;
      ScaledLength(xs[..n], scale);
      var scaled := Scaled(xs, scale);
      assert scaled[..n] == Scaled(xs[..n], scale);
      Squares(SquaredLength(xs[..n]), xs[n], scale);
    }
  }

  lemma Squares(sum: real, x: real, scale: real)
    ensures Times(sum, Square(scale)) + Square(Times(x, scale)) == Times(sum + Square(x), Square(scale))
    ensures Times(0.0, Square(scale)) == 0.0
  {
    assert (x * scale) * (x * scale) == (x * x) * (scale * scale);
  }

  /** Every vector has a positive length, so it can be scaled. */
  lemma {:induction false} LengthIsPositive(w: Words, n: nat)
    ensures n > 0 ==> SquaredLength(Raw(w, n)) > 0.0
    ensures SquaredLength(Raw(w, n)) >= 0.0
    decreases n
  {
    hide Component, Steps, Square;
    if n > 0 {
      LengthIsPositive(w, n - 1);
      RawLength(w, n - 1);
      var raw, init := Raw(w, n), Raw(w, n - 1);
      assert raw == init + [Component(Steps(w, n).a)];
      assert raw[..|raw| - 1] == init;
      ComponentIsNotZero(Steps(w, n).a);
    }
  }

  /** `Math.sqrt`, over the reals. */
  ghost predicate IsSquareRoot(sqrt: real -> real) {
    forall x :: x > 0.0 ==> sqrt(x) > 0.0 && Square(sqrt(x)) == x
  }

  lemma UnitAfterScaling(xs: seq<real>, root: real)
    requires root > 0.0 && Square(root) == SquaredLength(xs)
    ensures SquaredLength(Scaled(xs, 1.0 / root)) == 1.0
  {
    hide Square, Times;
    ScaledLength(xs, 1.0 / root);
    Inverse(root);
  }

  lemma Inverse(root: real)
    requires root > 0.0
    ensures Times(Square(root), Square(1.0 / root)) == 1.0
  {
    var inverse := 1.0 / root;
    assert root * inverse == 1.0;
    assert (root * root) * (inverse * inverse) == (root * inverse) * (root * inverse);
  }

  // -------------------------------------------------------------------------------------------
  // The loops
  // -------------------------------------------------------------------------------------------

  method HashFnv1a(text: Text) returns (hash: bv32)
    ensures hash == Fnv1a(text)
  {
    hide Fnv1aRound;
    hash := 0x811c9dc5;
    for index := 0 to |text|
      invariant hash == Fnv1a(text[..index])
    {
      assert text[..index + 1][..index] == text[..index];
      hash := Fnv1aRound(hash, text[index]);
    }
    assert text[..|text|] == text;
  }

  method HashDjb2(text: Text) returns (hash: bv32)
    ensures hash == Djb2(text)
  {
    hide Djb2Round;
    hash := 5381;
    for index := 0 to |text|
      invariant hash == Djb2(text[..index])
    {
      assert text[..index + 1][..index] == text[..index];
      hash := Djb2Round(hash, text[index]);
    }
    assert text[..|text|] == text;
  }

  function Held(state: array<bv32>): Words
    requires state.Length == 4
    reads state
  {
    Words(state[0], state[1], state[2], state[3])
  }

  /** One step of the generator, in place. */
  method Xorshift128(state: array<bv32>) returns (word: bv32)
    requires state.Length == 4
    modifies state
    ensures Held(state) == Next(old(Held(state))) && word == Held(state).a
    ensures state[1] == old(state[0]) && state[2] == old(state[1]) && state[3] == old(state[2]) && word == state[0]
    ensures exists t, u :: IsLeft(old(state[3]), t) && IsRight(t, u) && IsJoin(u, old(state[0]), state[0])
  {
    Computed(state[3], 0);
    Computed(Left(state[3]), 0);
    Computed(Right(Left(state[3])), state[0]);
    hide Left, Right, Join, IsLeft, IsRight, IsJoin;
    var t := state[3];
    var s := state[0];
    state[3] := state[2];
    state[2] := state[1];
    state[1] := s;
    t := Left(t);
    t := Right(t);
    state[0] := Join(t, s);
    word := state[0];
  }

  /** `xorshift128(state) / 0xffffffff - 0.5`. */
  method NextComponent(state: array<bv32>) returns (value: real)
    requires state.Length == 4
    modifies state
    ensures Held(state) == Next(old(Held(state))) && value == Component(Next(old(Held(state))).a)
    ensures value == (state[0] as nat as real) / 4294967295.0 - 0.5
  {
    hide Next;
    var word := Xorshift128(state);
    value := Component(word);
  }

  /** `n` components in: the generator's state, the components so far and their squared length. */
  ghost predicate FilledTo(seed: Words, n: nat, state: Words, done: seq<real>, norm: real) {
    state == Steps(seed, n) && done == Raw(seed, n) && norm == SquaredLength(done)
  }

  lemma FilledNone(seed: Words)
    ensures FilledTo(seed, 0, seed, [], 0.0)
  {
  }

  lemma FilledOneMore(seed: Words, n: nat, state: Words, done: seq<real>, norm: real)
    requires FilledTo(seed, n, state, done, norm)
    ensures var value := Component(Next(state).a);
            FilledTo(seed, n + 1, Next(state), done + [value], norm + Square(value))
  {
    hide Next, Component, Square;
    var value := Component(Next(state).a);
    assert (done + [value])[..|done|] == done;
  }

  lemma FilledAll(seed: Words, n: nat, state: Words, done: seq<real>, norm: real)
    requires FilledTo(seed, n, state, done, norm)
    ensures done == Raw(seed, n) && norm == SquaredLength(done)
  {
  }

  /** An array of components, and their squared length. */
  method FillComponents(state: array<bv32>) returns (raw: array<real>, norm: real)
    requires state.Length == 4
    modifies state
    ensures raw[..] == Raw(old(Held(state)), EMBEDDING_DIMENSIONS) && norm == SquaredLength(raw[..])
  {
    hide *;
    ghost var seed := Held(state);
    FilledNone(seed);
    raw := new real[EMBEDDING_DIMENSIONS];
    ghost var done: seq<real> := [];
    norm := 0.0;
    for index := 0 to raw.Length
      invariant FilledTo(seed, index, Held(state), done, norm)
      invariant raw[..index] == done
    {
      FilledOneMore(seed, index, Held(state), done, norm);
      var value := NextComponent(state);
      norm := norm + Square(value);
      raw[index] := value;
      assert raw[..index + 1] == raw[..index] + [value];
      done := done + [value];
    }
    assert raw[..] == done;
    FilledAll(seed, raw.Length, Held(state), done, norm);
  }

  method SeedState(text: Text) returns (state: array<bv32>)
    ensures fresh(state) && state.Length == 4 && Held(state) == Seed(text)
    ensures state[0] == (if Fnv1a(text) != 0 then Fnv1a(text) else 0x9e3779b9)
    ensures state[1] == (if Djb2(text) != 0 then Djb2(text) else 0x85ebca6b)
    ensures state[2] == 0xc2b2ae35 && state[3] == 0x27d4eb2f
  {
    hide Fnv1a, Djb2;
    var first := HashFnv1a(text);
    var second := HashDjb2(text);
    state := new bv32[4];
    state[0] := OrElse(first, 0x9e3779b9);
    state[1] := OrElse(second, 0x85ebca6b);
    state[2] := 0xc2b2ae35;
    state[3] := 0x27d4eb2f;
  }

  /** A unit vector that is the text's components scaled by one positive factor. */
  method FakeVector(text: Text, sqrt: real -> real) returns (vector: seq<real>)
    requires IsSquareRoot(sqrt)
    ensures |vector| == EMBEDDING_DIMENSIONS == 1536 && SquaredLength(vector) == 1.0
    ensures exists scale :: scale > 0.0 && vector == Scaled(Raw(Seed(text), EMBEDDING_DIMENSIONS), scale)
  {
    assert EMBEDDING_DIMENSIONS == 1536;
    hide *;
    var state := SeedState(text);
    var raw, norm := FillComponents(state);
    LengthIsPositive(Seed(text), EMBEDDING_DIMENSIONS);
    RootOf(sqrt, norm);
    var root := sqrt(norm);
    var scale := 1.0 / root;
    UnitAfterScaling(raw[..], root);
    RawLength(Seed(text), EMBEDDING_DIMENSIONS);
    vector := Scaled(raw[..], scale);
  }

  lemma RootOf(sqrt: real -> real, x: real)
    requires IsSquareRoot(sqrt) && x > 0.0
    ensures sqrt(x) > 0.0 && Square(sqrt(x)) == x && 1.0 / sqrt(x) > 0.0
  {
  }
}
