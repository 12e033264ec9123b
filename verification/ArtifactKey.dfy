/** Fingerprints of kernel artifacts, from build.rs. */
module ArtifactKey {
  import opened Lists

  /*
   The FNV-1a hash of an artifact's bytes, the length-prefixed preimage of its input key, and which
   inputs share a preimage.
   */

  type Byte = x: int | 0 <= x < 256

  // ---------------------------------------------------------------- FNV-1a, 64 bits

  const WORD: int := 0x1_0000_0000_0000_0000
  const FNV_OFFSET: int := 0xcbf2_9ce4_8422_2325
  const FNV_PRIME: int := 0x0000_0100_0000_01b3

  /** The inverse of the prime modulo 2^64, which exists because the prime is odd. */
  const FNV_PRIME_INVERSE: int := 0xce96_5057_aff6_957b

  /** A 64-bit word. */
  type Word = x: int | 0 <= x < WORD

  /** Bitwise exclusive or. */
  function Xor(a: nat, b: nat): nat
    decreases a + b
  {
    if a == 0 && b == 0 then 0 else 2 * Xor(a / 2, b / 2) + if a % 2 != b % 2 then 1 else 0
  }

  lemma {:induction false} XorCancels(a: nat, b: nat)
    ensures Xor(Xor(a, b), b) == a
    ensures Xor(a, Xor(a, b)) == b
    decreases a + b
  {
    if a != 0 || b != 0 {
      XorCancels(a / 2, b / 2);
      var x := Xor(a, b);
      assert x / 2 == Xor(a / 2, b / 2);
    }
  }

  function TwoTo(k: nat): nat {
    if k == 0 then 1 else 2 * TwoTo(k - 1)
  }

  lemma {:induction false} XorBounded(a: nat, b: nat, k: nat)
    requires a < TwoTo(k) && b < TwoTo(k)
    ensures Xor(a, b) < TwoTo(k)
    decreases k
  {
    if k > 0 {
      XorBounded(a / 2, b / 2, k - 1);
    }
  }

  lemma TwoTo64()
    ensures TwoTo(64) == WORD
  {
    assert TwoTo(8) == 256;
    TwoToAdds(8, 8);
    TwoToAdds(16, 16);
    TwoToAdds(32, 32);
  }

  lemma {:induction false} TwoToAdds(j: nat, k: nat)
    ensures TwoTo(j + k) == TwoTo(j) * TwoTo(k)
  {
    if k > 0 {
      TwoToAdds(j, k - 1);
      assert TwoTo(j + k) == 2 * TwoTo(j + (k - 1));
    }
  }

  function XorByte(h: Word, b: Byte): Word {
    TwoTo64();
    XorBounded(h, b, 64);
    Xor(h, b)
  }

  /** `hash ^= byte; hash = hash.wrapping_mul(prime)`. */
  function FnvStep(h: Word, b: Byte): Word {
    (XorByte(h, b) * FNV_PRIME) % WORD
  }

  /** Undoes a step, given the byte. */
  function FnvStepBack(h: Word, b: Byte): Word {
    XorByte((h * FNV_PRIME_INVERSE) % WORD, b)
  }

  /** Multiplying by two factors whose product is one more than a multiple of the modulus changes nothing. */
  lemma InverseFactors(x: Word, p: int, q: int, c: int)
    requires p * q == 1 + WORD * c
    ensures (((x * p) % WORD) * q) % WORD == x
  {
    var d := (x * p) / WORD;
    assert (x * p) % WORD == x * p - WORD * d;
    calc {
      (x * p - WORD * d) * q;
      x * (p * q) - WORD * (d * q);
      x + WORD * (c * x - d * q);
    }
    ModuloWord(x, c * x - d * q);
  }

  lemma ModuloWord(x: Word, k: int)
    ensures (x + WORD * k) % WORD == x
  {
  }

  lemma InverseTimesPrime(x: Word)
    ensures (((x * FNV_PRIME) % WORD) * FNV_PRIME_INVERSE) % WORD == x
    ensures (((x * FNV_PRIME_INVERSE) % WORD) * FNV_PRIME) % WORD == x
  {
    InverseFactors(x, FNV_PRIME, FNV_PRIME_INVERSE, 0xce_9650_590f);
    InverseFactors(x, FNV_PRIME_INVERSE, FNV_PRIME, 0xce_9650_590f);
  }

  /** Each step is a bijection of the 64-bit state, for every byte. */
  lemma StepIsBijection(h: Word, b: Byte)
    ensures FnvStepBack(FnvStep(h, b), b) == h
    ensures FnvStep(FnvStepBack(h, b), b) == h
  {
    InverseTimesPrime(XorByte(h, b));
    XorCancels(h, b);
    InverseTimesPrime(h);
    XorCancels((h * FNV_PRIME_INVERSE) % WORD, b);
  }

  lemma StepSeparatesBytes(h: Word, b: Byte, c: Byte)
    requires b != c
    ensures FnvStep(h, b) != FnvStep(h, c)
  {
    InverseTimesPrime(XorByte(h, b));
    InverseTimesPrime(XorByte(h, c));
    XorCancels(h, b);
    XorCancels(h, c);
  }

  function FnvFrom(h: Word, bytes: seq<Byte>): Word
    decreases |bytes|
  {
    if |bytes| == 0 then h else FnvFrom(FnvStep(h, bytes[0]), bytes[1..])
  }

  function Fnv1a64(bytes: seq<Byte>): Word {
    FnvFrom(FNV_OFFSET, bytes)
  }

  lemma {:induction false} FnvFromAppend(h: Word, s: seq<Byte>, b: Byte)
    ensures FnvFrom(h, s + [b]) == FnvStep(FnvFrom(h, s), b)
    decreases |s|
  {
    if |s| > 0 {
      assert (s + [b])[1..] == s[1..] + [b];
      FnvFromAppend(FnvStep(h, s[0]), s[1..], b);
    }
  }

  /** `fnv1a_64`. */
  method ComputeFnv1a64(bytes: seq<Byte>) returns (hash: Word)
    ensures hash == Fnv1a64(bytes)
  {
    hash := FNV_OFFSET;
    for i := 0 to |bytes|
      invariant hash == Fnv1a64(bytes[..i])
    {
      assert bytes[..i + 1] == bytes[..i] + [bytes[i]];
      FnvFromAppend(FNV_OFFSET, bytes[..i], bytes[i]);
      hash := XorByte(hash, bytes[i]);
      hash := (hash * FNV_PRIME) % WORD;
    }
    assert bytes[..|bytes|] == bytes;
  }

  /** Different states stay different whatever bytes follow. */
  lemma {:induction false} StatesStayApart(h: Word, g: Word, bytes: seq<Byte>)
    requires h != g
    ensures FnvFrom(h, bytes) != FnvFrom(g, bytes)
    decreases |bytes|
  {
    if |bytes| > 0 {
      StepIsBijection(h, bytes[0]);
      StepIsBijection(g, bytes[0]);
      StatesStayApart(FnvStep(h, bytes[0]), FnvStep(g, bytes[0]), bytes[1..]);
    }
  }

  lemma {:induction false} OneByteDiffersFrom(h: Word, bytes: seq<Byte>, i: nat, b: Byte)
    requires i < |bytes| && bytes[i] != b
    ensures FnvFrom(h, bytes) != FnvFrom(h, bytes[i := b])
    decreases |bytes|
  {
    if i == 0 {
      StepSeparatesBytes(h, bytes[0], b);
      StatesStayApart(FnvStep(h, bytes[0]), FnvStep(h, b), bytes[1..]);
      assert bytes[0 := b][1..] == bytes[1..];
    } else {
      assert bytes[i := b][1..] == bytes[1..][i - 1 := b];
      OneByteDiffersFrom(FnvStep(h, bytes[0]), bytes[1..], i - 1, b);
    }
  }

  /** A changed byte always changes the hash, so a one-byte corruption never passes for the artifact. */
  lemma OneByteChangesHash(bytes: seq<Byte>, i: nat, b: Byte)
    requires i < |bytes| && bytes[i] != b
    ensures Fnv1a64(bytes) != Fnv1a64(bytes[i := b])
  {
    OneByteDiffersFrom(FNV_OFFSET, bytes, i, b);
  }

  // ---------------------------------------------------------------- the input key's preimage

  /** `to_le_bytes` of a `k`-byte integer. */
  function LittleEndian(n: nat, k: nat): (s: seq<Byte>)
    ensures |s| == k
    decreases k
  {
    if k == 0 then [] else [n % 256] + LittleEndian(n / 256, k - 1)
  }

  lemma {:induction false} LittleEndianInjective(m: nat, n: nat, k: nat)
    requires m < TwoTo(8 * k) && n < TwoTo(8 * k) && LittleEndian(m, k) == LittleEndian(n, k)
    ensures m == n
    decreases k
  {
    if k > 0 {
      TwoToAdds(8, 8 * (k - 1));
      assert TwoTo(8) == 256;
      assert LittleEndian(m, k)[0] == LittleEndian(n, k)[0];
      assert LittleEndian(m, k)[1..] == LittleEndian(n, k)[1..];
      LittleEndianInjective(m / 256, n / 256, k - 1);
    }
  }

  /** `hash_field`: the length as eight bytes, then the bytes. */
  function Field(bytes: seq<Byte>): seq<Byte> {
    LittleEndian(|bytes|, 8) + bytes
  }

  predicate Fits(bytes: seq<Byte>) {
    |bytes| < WORD
  }

  lemma SplitSame(a: seq<Byte>, x: seq<Byte>, b: seq<Byte>, y: seq<Byte>)
    requires |a| == |b| && a + x == b + y
    ensures a == b && x == y
  {
    assert a == (a + x)[..|a|] && b == (b + y)[..|b|];
    assert x == (a + x)[|a|..] && y == (b + y)[|b|..];
  }

  /** A length-prefixed field can be read off the front of a stream in one way only. */
  lemma FieldPrefix(a: seq<Byte>, x: seq<Byte>, b: seq<Byte>, y: seq<Byte>)
    requires Fits(a) && Fits(b) && Field(a) + x == Field(b) + y
    ensures a == b && x == y
  {
    Regroup(LittleEndian(|a|, 8), a, x);
    Regroup(LittleEndian(|b|, 8), b, y);
    SplitSame(LittleEndian(|a|, 8), a + x, LittleEndian(|b|, 8), b + y);
    TwoTo64();
    LittleEndianInjective(|a|, |b|, 8);
    SplitSame(a, x, b, y);
  }

  function Fields(args: seq<seq<Byte>>): seq<Byte> {
    if |args| == 0 then [] else Field(args[0]) + Fields(args[1..])
  }

  predicate AllFit(args: seq<seq<Byte>>) {
    forall i :: 0 <= i < |args| ==> Fits(args[i])
  }

  lemma {:induction false} FieldsPrefix(a: seq<seq<Byte>>, x: seq<Byte>, b: seq<seq<Byte>>, y: seq<Byte>)
    requires |a| == |b| && AllFit(a) && AllFit(b) && Fields(a) + x == Fields(b) + y
    ensures a == b && x == y
  {
    if |a| > 0 {
      Regroup(Field(a[0]), Fields(a[1..]), x);
      Regroup(Field(b[0]), Fields(b[1..]), y);
      FieldPrefix(a[0], Fields(a[1..]) + x, b[0], Fields(b[1..]) + y);
      FieldsPrefix(a[1..], x, b[1..], y);
    } else {
      assert Fields(a) + x == x && Fields(b) + y == y;
    }
  }

  /** A dependency: its path, and the 32-byte digest of its contents. */
  datatype Dependency = Dependency(path: seq<Byte>, digest: seq<Byte>) {
    predicate Valid() {
      Fits(path) && |digest| == 32
    }
  }

  predicate AllValid(deps: seq<Dependency>) {
    forall i :: 0 <= i < |deps| ==> deps[i].Valid()
  }

  /** `hash_field(path); hash.update(digest)` for each dependency. */
  function DependencyBytes(deps: seq<Dependency>): seq<Byte> {
    if |deps| == 0 then [] else Field(deps[0].path) + deps[0].digest + DependencyBytes(deps[1..])
  }

  lemma {:induction false} DependencyBytesInjective(a: seq<Dependency>, b: seq<Dependency>)
    requires AllValid(a) && AllValid(b) && DependencyBytes(a) == DependencyBytes(b)
    ensures a == b
  {
    if |a| > 0 && |b| > 0 {
      Regroup(Field(a[0].path), a[0].digest, DependencyBytes(a[1..]));
      Regroup(Field(b[0].path), b[0].digest, DependencyBytes(b[1..]));
      FieldPrefix(a[0].path, a[0].digest + DependencyBytes(a[1..]), b[0].path, b[0].digest + DependencyBytes(b[1..]));
      SplitSame(a[0].digest, DependencyBytes(a[1..]), b[0].digest, DependencyBytes(b[1..]));
      DependencyBytesInjective(a[1..], b[1..]);
    }
  }

  /** What the input key of one artifact is the digest of; `maxVersion` enters only when portable. */
  datatype Inputs = Inputs(compiler: seq<Byte>, phase: seq<Byte>, args: seq<seq<Byte>>, maxVersion: seq<Byte>,
                           deps: seq<Dependency>) {
    predicate Valid() {
      |compiler| == 32 && Fits(phase) && AllFit(args) && Fits(maxVersion) && AllValid(deps)
    }
  }

  function Preimage(i: Inputs, portable: bool): seq<Byte> {
    var version := if portable then Field(i.maxVersion) else [];
    i.compiler + Field(i.phase) + Fields(i.args) + version + DependencyBytes(i.deps)
  }

  /** For a fixed number of arguments, equal preimages mean equal inputs. */
  lemma PreimageInjective(a: Inputs, b: Inputs, portable: bool)
    requires a.Valid() && b.Valid() && |a.args| == |b.args| && Preimage(a, portable) == Preimage(b, portable)
    ensures SameInputs(a, b, portable)
  {
    var va, vb := if portable then [a.maxVersion] else [], if portable then [b.maxVersion] else [];
    FieldsOfOne(a.maxVersion);
    FieldsOfOne(b.maxVersion);
    var ra, rb := Fields(va) + DependencyBytes(a.deps), Fields(vb) + DependencyBytes(b.deps);
    PreimageGrouped(a, portable);
    PreimageGrouped(b, portable);
    SplitSame(a.compiler, Field(a.phase) + (Fields(a.args) + ra), b.compiler, Field(b.phase) + (Fields(b.args) + rb));
    FieldPrefix(a.phase, Fields(a.args) + ra, b.phase, Fields(b.args) + rb);
    FieldsPrefix(a.args, ra, b.args, rb);
    FieldsPrefix(va, DependencyBytes(a.deps), vb, DependencyBytes(b.deps));
    DependencyBytesInjective(a.deps, b.deps);
    assert portable ==> va[0] == vb[0];
  }

  lemma PreimageGrouped(i: Inputs, portable: bool)
    ensures var v := if portable then [i.maxVersion] else [];
            Preimage(i, portable)
            == i.compiler + (Field(i.phase) + (Fields(i.args) + (Fields(v) + DependencyBytes(i.deps))))
  {
    FieldsOfOne(i.maxVersion);
    var v := if portable then Field(i.maxVersion) else [];
    var deps := DependencyBytes(i.deps);
    Regroup(i.compiler + Field(i.phase) + Fields(i.args), v, deps);
    Regroup(i.compiler + Field(i.phase), Fields(i.args), v + deps);
    Regroup(i.compiler, Field(i.phase), Fields(i.args) + (v + deps));
  }

  lemma FieldsOfOne(v: seq<Byte>)
    ensures Fields([v]) == Field(v)
  {
    assert Fields([v][1..]) == [];
  }

  /** What a preimage has to determine. */
  predicate SameInputs(a: Inputs, b: Inputs, portable: bool) {
    && a.compiler == b.compiler && a.phase == b.phase && a.args == b.args && a.deps == b.deps
    && (portable ==> a.maxVersion == b.maxVersion)
  }

  // ---------------------------------------------------------------- different numbers of arguments

  /** No string in memory is that long, so the last of its eight length bytes is zero. */
  const LIMIT: int := 0x100_0000_0000_0000

  /** What arguments, environment variables and file names can hold: anything but zero bytes. */
  predicate Plain(bytes: seq<Byte>) {
    |bytes| < LIMIT && 0 !in bytes
  }

  predicate AllPlain(strings: seq<seq<Byte>>) {
    forall i :: 0 <= i < |strings| ==> Plain(strings[i])
  }

  /** Paths are never empty; of the digest nothing is known but its length. */
  predicate AllNamed(deps: seq<Dependency>) {
    forall i :: 0 <= i < |deps| ==> deps[i].path != [] && Plain(deps[i].path) && |deps[i].digest| == 32
  }

  predicate DistinctPaths(deps: seq<Dependency>) {
    forall i, j :: 0 <= i < j < |deps| ==> deps[i].path != deps[j].path
  }

  /** The inputs that the build can come by: at least one dependency, none twice. */
  predicate Received(i: Inputs) {
    && |i.compiler| == 32 && Plain(i.phase) && AllPlain(i.args) && Plain(i.maxVersion) && |i.args| < LIMIT
    && |i.deps| > 0 && AllNamed(i.deps) && DistinctPaths(i.deps)
  }

  /** The length-prefixed strings between the phase and the dependencies. */
  function Strings(i: Inputs, portable: bool): seq<seq<Byte>> {
    i.args + if portable then [i.maxVersion] else []
  }

  lemma PreimageOfStrings(i: Inputs, portable: bool)
    ensures Preimage(i, portable)
            == i.compiler + (Field(i.phase) + (Fields(Strings(i, portable)) + DependencyBytes(i.deps)))
  {
    var v := if portable then [i.maxVersion] else [];
    PreimageGrouped(i, portable);
    FieldsConcat(i.args, v);
    Regroup(Fields(i.args), Fields(v), DependencyBytes(i.deps));
  }

  lemma {:induction false} FieldsConcat(a: seq<seq<Byte>>, b: seq<seq<Byte>>)
    ensures Fields(a + b) == Fields(a) + Fields(b)
  {
    if |a| == 0 {
      assert a + b == b;
    } else {
      assert (a + b)[1..] == a[1..] + b;
      FieldsConcat(a[1..], b);
      Regroup(Field(a[0]), Fields(a[1..]), Fields(b));
    }
  }

  lemma {:induction false} TopByteIsZero(n: nat, k: nat)
    requires k > 0 && n < TwoTo(8 * (k - 1))
    ensures LittleEndian(n, k)[k - 1] == 0
    decreases k
  {
    if k > 1 {
      TwoToAdds(8, 8 * (k - 2));
      assert TwoTo(8) == 256;
      TopByteIsZero(n / 256, k - 1);
    }
  }

  lemma ZeroBeforeField(x: seq<Byte>, p: seq<Byte>)
    requires Plain(p)
    ensures var s := x + Field(p); s[|s| - |p| - 1] == 0 && s[|s| - |p|..] == p
  {
    TwoTo56();
    TopByteIsZero(|p|, 8);
  }

  lemma TwoTo56()
    ensures TwoTo(56) == LIMIT
  {
    assert TwoTo(8) == 256;
    TwoToAdds(8, 8);
    TwoToAdds(16, 8);
    TwoToAdds(24, 8);
    TwoToAdds(32, 8);
    TwoToAdds(40, 8);
    TwoToAdds(48, 8);
  }

  lemma InsideIsNotZero(s: seq<Byte>, q: seq<Byte>, n: nat)
    requires Plain(q) && |q| <= |s| && s[|s| - |q|..] == q
    ensures n < |q| ==> s[|s| - n - 1] != 0
  {
    if n < |q| {
      assert q[|q| - n - 1] in q;
    }
  }

  /** A field without zero bytes can be read off the end of a stream in one way only. */
  lemma FieldSuffix(x: seq<Byte>, p: seq<Byte>, y: seq<Byte>, q: seq<Byte>)
    requires Plain(p) && Plain(q) && x + Field(p) == y + Field(q)
    ensures p == q && x == y
  {
    ZeroBeforeField(x, p);
    ZeroBeforeField(y, q);
    InsideIsNotZero(x + Field(p), q, |p|);
    InsideIsNotZero(x + Field(p), p, |q|);
    SplitSame(x, Field(p), y, Field(q));
  }

  lemma {:induction false} DependencyBytesConcat(a: seq<Dependency>, b: seq<Dependency>)
    ensures DependencyBytes(a + b) == DependencyBytes(a) + DependencyBytes(b)
  {
    if |a| == 0 {
      assert a + b == b;
    } else {
      assert (a + b)[1..] == a[1..] + b;
      DependencyBytesConcat(a[1..], b);
      Regroup(Field(a[0].path) + a[0].digest, DependencyBytes(a[1..]), DependencyBytes(b));
    }
  }

  lemma OneDependency(d: Dependency)
    ensures DependencyBytes([d]) == Field(d.path) + d.digest
  {
    assert [d][1..] == [];
  }

  lemma LastDependency(deps: seq<Dependency>)
    requires |deps| > 0
    ensures var less, d := deps[..|deps| - 1], deps[|deps| - 1];
            DependencyBytes(deps) == DependencyBytes(less) + Field(d.path) + d.digest
  {
    var less, d := deps[..|deps| - 1], deps[|deps| - 1];
    assert deps == less + [d];
    DependencyBytesConcat(less, [d]);
    OneDependency(d);
    Regroup(DependencyBytes(less), Field(d.path), d.digest);
  }

  /** Dependencies can be read off the end of a stream in one way only. */
  lemma {:induction false} DependenciesSuffix(a: seq<Dependency>, x: seq<Byte>, b: seq<Dependency>)
    returns (hidden: seq<Dependency>)
    requires AllNamed(a) && AllNamed(b) && DependencyBytes(a) == x + DependencyBytes(b)
    ensures a == hidden + b && DependencyBytes(hidden) == x
    decreases |b|
  {
    if |b| == 0 {
      hidden := a;
    } else {
      LastDependenciesAgree(a, x, b);
      hidden := DependenciesSuffix(a[..|a| - 1], x, b[..|b| - 1]);
      SameLast(hidden, a, b);
    }
  }

  lemma SameLast<T>(hidden: seq<T>, a: seq<T>, b: seq<T>)
    requires |a| > 0 && |b| > 0 && a[|a| - 1] == b[|b| - 1] && a[..|a| - 1] == hidden + b[..|b| - 1]
    ensures a == hidden + b
  {
    var last := [b[|b| - 1]];
    assert a == a[..|a| - 1] + last && b == b[..|b| - 1] + last;
    Regroup(hidden, b[..|b| - 1], last);
  }

  lemma LastDependenciesAgree(a: seq<Dependency>, x: seq<Byte>, b: seq<Dependency>)
    requires AllNamed(a) && AllNamed(b) && |b| > 0 && DependencyBytes(a) == x + DependencyBytes(b)
    ensures |a| > 0 && a[|a| - 1] == b[|b| - 1]
    ensures DependencyBytes(a[..|a| - 1]) == x + DependencyBytes(b[..|b| - 1])
  {
    LastDependency(b);
    assert |a| > 0;
    LastDependency(a);
    PeelOne(DependencyBytes(a[..|a| - 1]), a[|a| - 1], x, DependencyBytes(b[..|b| - 1]), b[|b| - 1]);
  }

  lemma PeelOne(less: seq<Byte>, d: Dependency, x: seq<Byte>, more: seq<Byte>, e: Dependency)
    requires Plain(d.path) && Plain(e.path) && |d.digest| == |e.digest|
    requires less + Field(d.path) + d.digest == x + (more + Field(e.path) + e.digest)
    ensures d == e && less == x + more
  {
    var s := less + Field(d.path);
    Regroup(x, more + Field(e.path), e.digest);
    Regroup(x, more, Field(e.path));
    assert |s| == |x + (more + Field(e.path))|;
    SplitSame(s, d.digest, x + (more + Field(e.path)), e.digest);
    FieldSuffix(less, d.path, x + more, e.path);
  }

  /**
   Exactly which inputs share a preimage: `a`, with no more arguments than `b`, has further
   dependencies in front of those of `b`, and their bytes read as the further strings of `b`.
   */
  lemma SharedPreimageIff(a: Inputs, b: Inputs, portable: bool)
    requires Received(a) && Received(b) && |a.args| <= |b.args|
    ensures Preimage(a, portable) == Preimage(b, portable)
            <==> && a.compiler == b.compiler && a.phase == b.phase
                 && HiddenIn(Strings(a, portable), a.deps, Strings(b, portable), b.deps)
  {
    var sa, sb := Strings(a, portable), Strings(b, portable);
    var da, db := DependencyBytes(a.deps), DependencyBytes(b.deps);
    PreimageOfStrings(a, portable);
    PreimageOfStrings(b, portable);
    if Preimage(a, portable) == Preimage(b, portable) {
      SplitSame(a.compiler, Field(a.phase) + (Fields(sa) + da), b.compiler, Field(b.phase) + (Fields(sb) + db));
      FieldPrefix(a.phase, Fields(sa) + da, b.phase, Fields(sb) + db);
      StreamsHide(sa, a.deps, sb, b.deps);
    } else if HiddenIn(sa, a.deps, sb, b.deps) {
      HiddenStreams(sa, a.deps, sb, b.deps);
    }
  }

  /** The first dependencies of one side are the last strings of the other, and everything else is the same. */
  predicate HiddenIn(sa: seq<seq<Byte>>, da: seq<Dependency>, sb: seq<seq<Byte>>, db: seq<Dependency>) {
    && |sa| <= |sb| && |db| <= |da| && sb[..|sa|] == sa && da[|da| - |db|..] == db
    && DependencyBytes(da[..|da| - |db|]) == Fields(sb[|sa|..])
  }

  lemma StreamsHide(sa: seq<seq<Byte>>, da: seq<Dependency>, sb: seq<seq<Byte>>, db: seq<Dependency>)
    requires |sa| <= |sb| && AllPlain(sa) && AllPlain(sb) && AllNamed(da) && AllNamed(db)
    requires Fields(sa) + DependencyBytes(da) == Fields(sb) + DependencyBytes(db)
    ensures HiddenIn(sa, da, sb, db)
  {
    var front, more := sb[..|sa|], sb[|sa|..];
    assert sb == front + more;
    FieldsConcat(front, more);
    Regroup(Fields(front), Fields(more), DependencyBytes(db));
    FieldsPrefix(sa, DependencyBytes(da), front, Fields(more) + DependencyBytes(db));
    var hidden := DependenciesSuffix(da, Fields(more), db);
    assert da[..|da| - |db|] == hidden;
  }

  lemma HiddenStreams(sa: seq<seq<Byte>>, da: seq<Dependency>, sb: seq<seq<Byte>>, db: seq<Dependency>)
    requires HiddenIn(sa, da, sb, db)
    ensures Fields(sa) + DependencyBytes(da) == Fields(sb) + DependencyBytes(db)
  {
    var more, hidden := sb[|sa|..], da[..|da| - |db|];
    assert sb == sa + more && da == hidden + db;
    FieldsConcat(sa, more);
    DependencyBytesConcat(hidden, db);
    Regroup(Fields(sa), Fields(more), DependencyBytes(db));
  }

  lemma {:induction false} FieldsAreLong(strings: seq<seq<Byte>>)
    ensures |Fields(strings)| >= 8 * |strings|
  {
    if |strings| > 0 {
      FieldsAreLong(strings[1..]);
    }
  }

  /** As many dependencies: equal preimages mean equal inputs, whatever the numbers of arguments. */
  lemma SameDependencyCount(a: Inputs, b: Inputs, portable: bool)
    requires Received(a) && Received(b) && |a.deps| == |b.deps| && Preimage(a, portable) == Preimage(b, portable)
    ensures SameInputs(a, b, portable)
  {
    if |a.args| <= |b.args| {
      NothingHidden(a, b, portable);
    } else {
      NothingHidden(b, a, portable);
    }
  }

  lemma NothingHidden(a: Inputs, b: Inputs, portable: bool)
    requires Received(a) && Received(b) && |a.args| <= |b.args| && |a.deps| == |b.deps|
    requires Preimage(a, portable) == Preimage(b, portable)
    ensures SameInputs(a, b, portable)
  {
    SharedPreimageIff(a, b, portable);
    var sa, sb := Strings(a, portable), Strings(b, portable);
    var more := sb[|sa|..];
    assert a.deps[..0] == [];
    FieldsAreLong(more);
    assert sa == sb;
    assert a.args == sa[..|a.args|] && b.args == sb[..|b.args|];
    assert portable ==> sa[|a.args|] == sb[|b.args|];
  }

  /** One argument more: the preimages always differ, as a path and its digest do not read as one field. */
  lemma OneMoreArgument(a: Inputs, b: Inputs, portable: bool)
    requires Received(a) && Received(b) && |b.args| == |a.args| + 1
    ensures Preimage(a, portable) != Preimage(b, portable)
  {
    SharedPreimageIff(a, b, portable);
    OneMoreString(Strings(a, portable), a.deps, Strings(b, portable), b.deps);
  }

  lemma OneMoreString(sa: seq<seq<Byte>>, da: seq<Dependency>, sb: seq<seq<Byte>>, db: seq<Dependency>)
    requires |sb| == |sa| + 1 && AllPlain(sb) && AllNamed(da)
    ensures !HiddenIn(sa, da, sb, db)
  {
    var field := sb[|sa|];
    assert sb[|sa|..] == [field];
    FieldsOfOne(field);
    if |db| <= |da| {
      OneFieldHidesNothing(da[..|da| - |db|], field);
    }
  }

  lemma OneFieldHidesNothing(deps: seq<Dependency>, field: seq<Byte>)
    requires AllNamed(deps) && Plain(field)
    ensures DependencyBytes(deps) != Field(field)
  {
    if |deps| > 0 && DependencyBytes(deps) == Field(field) {
      var rest := deps[0].digest + DependencyBytes(deps[1..]);
      Regroup(Field(deps[0].path), deps[0].digest, DependencyBytes(deps[1..]));
      assert Field(field) + [] == Field(field);
      FieldPrefix(deps[0].path, rest, field, []);
    }
  }

  // ---------------------------------------------------------------- two or more further arguments

  function Letters(n: nat): seq<Byte> {
    Repeat(97, n)
  }

  /** One dependency whose digest begins with the length of the letters that fill it. */
  function TwoFields(i: nat): Dependency {
    Dependency(Letters(i), Field(Letters(24)))
  }

  /** One dependency whose digest consists of two fields. */
  function ThreeFields(i: nat): Dependency {
    Dependency(Letters(i), Field(Letters(8)) + Field(Letters(8)))
  }

  /** Dependencies, in ascending order of their paths, whose bytes read as `k` fields. */
  function Hidden(k: nat, i: nat): seq<Dependency>
    requires k != 1
  {
    if k == 0 then []
    else if k == 3 then [ThreeFields(i)]
    else [TwoFields(i)] + Hidden(k - 2, i + 1)
  }

  function HiddenFields(k: nat, i: nat): (fields: seq<seq<Byte>>)
    requires k != 1
    ensures |fields| == k
  {
    if k == 0 then []
    else if k == 3 then [Letters(i), Letters(8), Letters(8)]
    else [Letters(i), Letters(24)] + HiddenFields(k - 2, i + 1)
  }

  lemma {:induction false} HiddenReadAsFields(k: nat, i: nat)
    requires k != 1
    ensures DependencyBytes(Hidden(k, i)) == Fields(HiddenFields(k, i))
  {
    if k == 3 {
      TwoAndThreeFields(i);
    } else if k > 0 {
      HiddenReadAsFields(k - 2, i + 1);
      TwoAndThreeFields(i);
      DependencyBytesConcat([TwoFields(i)], Hidden(k - 2, i + 1));
      FieldsConcat([Letters(i), Letters(24)], HiddenFields(k - 2, i + 1));
    }
  }

  lemma TwoAndThreeFields(i: nat)
    ensures DependencyBytes([TwoFields(i)]) == Fields([Letters(i), Letters(24)])
    ensures DependencyBytes([ThreeFields(i)]) == Fields([Letters(i), Letters(8), Letters(8)])
  {
    var path, a, b := Letters(i), Letters(24), Letters(8);
    OneDependency(TwoFields(i));
    OneDependency(ThreeFields(i));
    FieldsOfOne(a);
    FieldsOfOne(b);
    assert [path, a][1..] == [a] && [path, b, b][1..] == [b, b] && [b, b][1..] == [b];
  }

  lemma {:induction false} HiddenAreNamed(k: nat, i: nat)
    requires k != 1 && 0 < i && i + k / 2 < LIMIT
    ensures |Hidden(k, i)| <= k / 2 && AllNamed(Hidden(k, i)) && AllPlain(HiddenFields(k, i))
    ensures forall j :: 0 <= j < |Hidden(k, i)| ==> Hidden(k, i)[j].path == Letters(i + j)
  {
    if k > 0 && k != 3 {
      HiddenAreNamed(k - 2, i + 1);
    }
  }

  /** Inputs whose last dependency follows others that read as `k` fields. */
  function Fewer(compiler: seq<Byte>, phase: seq<Byte>, args: seq<seq<Byte>>, v: seq<Byte>, k: nat): Inputs
    requires k >= 2
  {
    var hidden := Hidden(k, 1);
    Inputs(compiler, phase, args, v, hidden + [Dependency(Letters(|hidden| + 1), Letters(32))])
  }

  /** The same bytes with `k` further arguments and only the last dependency. */
  function More(compiler: seq<Byte>, phase: seq<Byte>, args: seq<seq<Byte>>, v: seq<Byte>, k: nat,
                portable: bool): Inputs
    requires k >= 2
  {
    var fields, last := HiddenFields(k, 1), [Dependency(Letters(|Hidden(k, 1)| + 1), Letters(32))];
    if portable then Inputs(compiler, phase, args + [v] + fields[..k - 1], fields[k - 1], last)
    else Inputs(compiler, phase, args + fields, v, last)
  }

  lemma MoreStrings(compiler: seq<Byte>, phase: seq<Byte>, args: seq<seq<Byte>>, v: seq<Byte>, k: nat, portable: bool)
    requires k >= 2
    ensures Strings(More(compiler, phase, args, v, k, portable), portable)
            == Strings(Fewer(compiler, phase, args, v, k), portable) + HiddenFields(k, 1)
  {
    var fields := HiddenFields(k, 1);
    if portable {
      var front, last := fields[..k - 1], fields[k - 1];
      assert fields == front + [last];
      Regroup(args + [v], front, [last]);
    }
  }

  lemma FewerReceived(compiler: seq<Byte>, phase: seq<Byte>, args: seq<seq<Byte>>, v: seq<Byte>, k: nat)
    requires |compiler| == 32 && Plain(phase) && AllPlain(args) && Plain(v) && k >= 2 && |args| + k < LIMIT
    ensures Received(Fewer(compiler, phase, args, v, k))
  {
    HiddenAreNamed(k, 1);
    var deps := Fewer(compiler, phase, args, v, k).deps;
    forall j | 0 <= j < |deps|
      ensures deps[j].path == Letters(j + 1) && |Letters(j + 1)| == j + 1
    {
      if j < |Hidden(k, 1)| {
        assert deps[j] == Hidden(k, 1)[j];
      }
    }
  }

  lemma MoreReceived(compiler: seq<Byte>, phase: seq<Byte>, args: seq<seq<Byte>>, v: seq<Byte>, k: nat, portable: bool)
    requires |compiler| == 32 && Plain(phase) && AllPlain(args) && Plain(v) && k >= 2 && |args| + k < LIMIT
    ensures Received(More(compiler, phase, args, v, k, portable))
  {
    HiddenAreNamed(k, 1);
  }

  /**
   Two or more further arguments, whatever they follow, can be hidden among the dependencies: two
   inputs that the build can come by have the same preimage.
   */
  lemma ArgumentCountMatters(compiler: seq<Byte>, phase: seq<Byte>, args: seq<seq<Byte>>, v: seq<Byte>, k: nat,
                             portable: bool)
    requires |compiler| == 32 && Plain(phase) && AllPlain(args) && Plain(v) && k >= 2 && |args| + k < LIMIT
    ensures var a, b := Fewer(compiler, phase, args, v, k), More(compiler, phase, args, v, k, portable);
            && Received(a) && Received(b) && a.args == args && args <= b.args && |b.args| == |args| + k
            && Preimage(a, portable) == Preimage(b, portable)
  {
    var a, b := Fewer(compiler, phase, args, v, k), More(compiler, phase, args, v, k, portable);
    FewerReceived(compiler, phase, args, v, k);
    MoreReceived(compiler, phase, args, v, k, portable);
    MoreStrings(compiler, phase, args, v, k, portable);
    HiddenReadAsFields(k, 1);
    HiddenSplit(Strings(a, portable), Hidden(k, 1), HiddenFields(k, 1), b.deps);
    SharedPreimageIff(a, b, portable);
  }

  lemma HiddenSplit(strings: seq<seq<Byte>>, hidden: seq<Dependency>, fields: seq<seq<Byte>>, deps: seq<Dependency>)
    requires DependencyBytes(hidden) == Fields(fields)
    ensures HiddenIn(strings, hidden + deps, strings + fields, deps)
  {
  }

  /**
   Preimages tell the inputs with `m` arguments from those with `n`, and determine them, if and only
   if the two numbers differ by at most one.
   */
  lemma CountsApartIff(m: nat, n: nat, portable: bool)
    requires m < LIMIT && n < LIMIT
    ensures (forall a: Inputs, b: Inputs ::
               Received(a) && Received(b) && |a.args| == m && |b.args| == n
               && Preimage(a, portable) == Preimage(b, portable)
               ==> SameInputs(a, b, portable))
            <==> -1 <= m - n <= 1
  {
    if -1 <= m - n <= 1 {
      forall a: Inputs, b: Inputs | Received(a) && Received(b) && |a.args| == m && |b.args| == n
                                    && Preimage(a, portable) == Preimage(b, portable)
        ensures SameInputs(a, b, portable)
      {
        CloseCounts(a, b, portable);
      }
    } else {
      var args: seq<seq<Byte>> := Repeat(Letters(1), if m < n then m else n);
      var compiler, k := Letters(32), if m < n then n - m else m - n;
      ArgumentCountMatters(compiler, Letters(1), args, Letters(1), k, portable);
      var a, b := Fewer(compiler, Letters(1), args, Letters(1), k),
        More(compiler, Letters(1), args, Letters(1), k, portable);
      assert !SameInputs(a, b, portable) && !SameInputs(b, a, portable);
    }
  }

  lemma CloseCounts(a: Inputs, b: Inputs, portable: bool)
    requires Received(a) && Received(b) && -1 <= |a.args| - |b.args| <= 1
    requires Preimage(a, portable) == Preimage(b, portable)
    ensures SameInputs(a, b, portable)
  {
    if |a.args| < |b.args| {
      OneMoreArgument(a, b, portable);
    } else if |b.args| < |a.args| {
      OneMoreArgument(b, a, portable);
    } else {
      PreimageInjective(a, b, portable);
    }
  }
}
