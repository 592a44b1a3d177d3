/**
 * Salted password hashing (`PasswordHasher`): a 16-byte random salt, a 32-byte
 * key derived with 100000 iterations of PBKDF2-HMAC-SHA256 (section 5.2 of
 * RFC 8018), both stored as Base64 text (section 4 of RFC 4648), and a
 * comparison that folds every byte pair into one XOR accumulator.
 *
 * The key derivation, the Base64 codec and the random generator are foreign
 * code; they enter as values (`Primitives`, `saltBytes`), and the facts the
 * model needs about them are collected in `WellBehaved`.
 */
module PasswordHasher {
  import opened Wrappers

  type byte = bv8

  const SaltSize: nat := 16
  const KeySize: nat := 32
  const Iterations: nat := 100000

  datatype Primitives = Primitives(
    /** `new Rfc2898DeriveBytes(password, salt, iterations, SHA256).GetBytes(length)` */
    derive: (string, seq<byte>, nat, nat) -> seq<byte>,
    /** `Convert.ToBase64String` */
    toBase64: seq<byte> -> string,
    /** `Convert.FromBase64String`; `None` where it throws `FormatException` */
    fromBase64: string -> Option<seq<byte>>)

  /** Base64 decoding undoes encoding, and the derived key has the requested length. */
  ghost predicate WellBehaved(p: Primitives) {
    && (forall b :: p.fromBase64(p.toBase64(b)) == Some(b))
    && (forall pw, salt, it, len :: |p.derive(pw, salt, it, len)| == len)
  }

  /** The value of `diff` after the comparison loop has visited the first `n` byte pairs. */
  function Accumulate(a: seq<byte>, b: seq<byte>, n: nat): bv8
    requires n <= |a| && n <= |b|
  {
    if n == 0 then 0 else Accumulate(a, b, n - 1) | (a[n - 1] ^ b[n - 1])
  }

  /** The accumulator stays zero exactly as long as the visited prefixes agree. */
  lemma {:induction false} AccumulateZero(a: seq<byte>, b: seq<byte>, n: nat)
    requires n <= |a| && n <= |b|
    ensures Accumulate(a, b, n) == 0 <==> a[..n] == b[..n]
  {
    if n > 0 {
      AccumulateZero(a, b, n - 1);
      var x := a[n - 1] ^ b[n - 1];
      assert x == 0 <==> a[n - 1] == b[n - 1];
      assert Accumulate(a, b, n - 1) | x == 0 <==> Accumulate(a, b, n - 1) == 0 && x == 0;
      assert a[..n] == a[..n - 1] + [a[n - 1]] && b[..n] == b[..n - 1] + [b[n - 1]];
      if a[..n] == b[..n] {
        assert a[..n - 1] == a[..n][..n - 1] && b[..n - 1] == b[..n][..n - 1];
      }
    }
  }

  /** The result of `AreEqual`, as a value: a length check, then the accumulator over all pairs. */
  function ConstantTimeEquals(a: seq<byte>, b: seq<byte>): (r: bool)
    ensures r <==> a == b
  {
    if |a| != |b| then false
    else
      AccumulateZero(a, b, |a|);
      assert a[..|a|] == a && b[..|b|] == b;
      Accumulate(a, b, |a|) == 0
  }

  /**
   * `AreEqual`: false at once on a length mismatch; otherwise every index is
   * visited (no early exit) and the arrays are equal iff no XOR was non-zero.
   */
  method AreEqual(first: seq<byte>, second: seq<byte>) returns (equal: bool, ghost visited: nat)
    ensures equal <==> first == second
    ensures |first| == |second| ==> visited == |first|
  {
    if |first| != |second| {
      return false, 0;
    }
    var diff: bv8 := 0;
    var i := 0;
    while i < |first|
      invariant 0 <= i <= |first|
      invariant diff == 0 <==> first[..i] == second[..i]
    {
      var x := first[i] ^ second[i];
      assert x == 0 <==> first[i] == second[i];
      assert first[..i + 1] == first[..i] + [first[i]] && second[..i + 1] == second[..i] + [second[i]];
      if first[..i + 1] == second[..i + 1] {
        assert first[..i] == first[..i + 1][..i] && second[..i] == second[..i + 1][..i];
      }
      diff := diff | x;
      i := i + 1;
    }
    assert first[..i] == first && second[..i] == second;
    return diff == 0, i;
  }

  /** `HashPassword(password, salt)`: decode the salt, derive the key, encode it; `None` if the salt is not Base64. */
  function HashWithSalt(p: Primitives, password: string, salt: string): (r: Option<string>)
    ensures r.Some? <==> p.fromBase64(salt).Some?
    ensures r.Some? ==> r.value == p.toBase64(p.derive(password, p.fromBase64(salt).value, Iterations, KeySize))
  {
    match p.fromBase64(salt)
    case None => None
    case Some(saltBytes) => Some(p.toBase64(p.derive(password, saltBytes, Iterations, KeySize)))
  }

  /** `HashPassword(password, out salt)`: the salt text and the hash text, in that order. */
  datatype Hashed = Hashed(hash: string, salt: string)

  /**
   * `HashPassword(password, out salt)` given the bytes the random generator
   * produced: the salt is their Base64 text and the hash is the Base64 text of
   * the 32-byte key derived from the password and exactly those bytes.
   */
  function HashPassword(p: Primitives, password: string, saltBytes: seq<byte>): (r: Option<Hashed>)
    requires |saltBytes| == SaltSize
    ensures r.Some? ==> r.value.salt == p.toBase64(saltBytes)
    ensures WellBehaved(p) ==> r.Some?
    ensures WellBehaved(p) ==> p.fromBase64(r.value.salt) == Some(saltBytes)
    ensures WellBehaved(p) ==> p.fromBase64(r.value.hash) == Some(p.derive(password, saltBytes, Iterations, KeySize))
    ensures WellBehaved(p) ==> |p.fromBase64(r.value.hash).value| == KeySize
  {
    var salt := p.toBase64(saltBytes);
    match HashWithSalt(p, password, salt)
    case None => None
    case Some(hash) => Some(Hashed(hash, salt))
  }

  /**
   * `Verify(password, hash, salt)`: re-derive with the stored salt and compare
   * the two decoded keys; `None` where a Base64 decoding throws.
   */
  function Verify(p: Primitives, password: string, hash: string, salt: string): (r: Option<bool>)
    ensures WellBehaved(p) ==>
      (r.Some? <==> p.fromBase64(salt).Some? && p.fromBase64(hash).Some?)
    ensures WellBehaved(p) && r.Some? ==>
      (r.value <==> p.derive(password, p.fromBase64(salt).value, Iterations, KeySize) == p.fromBase64(hash).value)
  {
    match HashWithSalt(p, password, salt)
    case None => None
    case Some(computed) =>
      match p.fromBase64(computed)
      case None => None
      case Some(mine) =>
        match p.fromBase64(hash)
        case None => None
        case Some(stored) => Some(ConstantTimeEquals(mine, stored))
  }

  /** Verifying a password against the hash and salt `HashPassword` produced for it succeeds. */
  lemma HashThenVerify(p: Primitives, password: string, saltBytes: seq<byte>)
    requires |saltBytes| == SaltSize && WellBehaved(p)
    ensures var h := HashPassword(p, password, saltBytes);
      h.Some? && Verify(p, password, h.value.hash, h.value.salt) == Some(true)
  {
  }

  /** A password whose derived key differs from the stored one is rejected, not faulted. */
  lemma VerifyRejectsOtherKey(p: Primitives, password: string, other: string, saltBytes: seq<byte>)
    requires |saltBytes| == SaltSize && WellBehaved(p)
    requires p.derive(other, saltBytes, Iterations, KeySize) != p.derive(password, saltBytes, Iterations, KeySize)
    ensures var h := HashPassword(p, password, saltBytes);
      h.Some? && Verify(p, other, h.value.hash, h.value.salt) == Some(false)
  {
  }
}
