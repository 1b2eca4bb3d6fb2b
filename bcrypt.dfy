/**
 * The two calls the backend makes into golang.org/x/crypto/bcrypt, as an
 * abstract one-way function: `GenerateFromPassword` turns a password and a
 * random salt into a digest, and `CompareHashAndPassword` accepts every
 * password whose Blowfish key is the one the digest was made with.
 */
module Bcrypt {

  /** The random salt `GenerateFromPassword` draws for each hash. */
  type Salt = nat

  /** `bcrypt.DefaultCost`. */
  const DefaultCost: nat := 10

  /** Blowfish's key schedule reads 18 words: 72 bytes of key. */
  const KeyBytes: nat := 72

  /**
   * A stored password hash. `Nil` is the empty byte slice of a zero-valued
   * record; `Digest` stands for the encoded "$2a$cost$salt+hash" bytes, of
   * which only the one-way relation to the password is modelled.
   */
  datatype Digest = Nil | Digest(cost: nat, salt: Salt, preimage: string)

  /** The first `n` elements of `s` repeated end to end. */
  function Cycle(s: seq<char>, n: nat): (k: seq<char>)
    requires |s| > 0
    ensures |k| == n
    decreases n
  {
    if n <= |s| then s[..n] else s + Cycle(s, n - |s|)
  }

  /**
   * The key bcrypt actually uses: the password followed by a NUL byte,
   * read cyclically until 72 bytes are taken. Only these bytes reach the
   * hash, so passwords with the same effective key are interchangeable.
   */
  function EffectiveKey(password: string): (k: seq<char>)
    ensures |k| == KeyBytes
  {
    Cycle(password + ['\0'], KeyBytes)
  }

  /** `GenerateFromPassword(password, DefaultCost)`, given the salt it draws. */
  function Hash(password: string, salt: Salt): (d: Digest)
    ensures d.Digest? && d.cost == DefaultCost && d.salt == salt
  {
    Digest(DefaultCost, salt, password)
  }

  /** `CompareHashAndPassword(d, password) == nil`. */
  predicate Verify(d: Digest, password: string) {
    match d
    case Nil => false
    case Digest(_, _, p) => EffectiveKey(p) == EffectiveKey(password)
  }

  /** A digest verifies exactly the passwords with the effective key it was made from, whatever the salt. */
  lemma VerifyHash(password: string, attempt: string, salt: Salt)
    ensures Verify(Hash(password, salt), password)
    ensures Verify(Hash(password, salt), attempt) <==> EffectiveKey(attempt) == EffectiveKey(password)
  {
  }

  /**
   * For passwords shorter than 72 bytes and free of NUL bytes the effective
   * key determines the password: a digest verifies its own password and no other.
   */
  lemma ShortPasswordsDistinct(password: string, attempt: string, salt: Salt)
    requires |password| < KeyBytes && |attempt| < KeyBytes
    requires forall i :: 0 <= i < |password| ==> password[i] != '\0'
    requires forall i :: 0 <= i < |attempt| ==> attempt[i] != '\0'
    ensures Verify(Hash(password, salt), attempt) <==> attempt == password
  {
    if Verify(Hash(password, salt), attempt) {
      var kp, ka := EffectiveKey(password), EffectiveKey(attempt);
      ShortKeyPrefix(password);
      ShortKeyPrefix(attempt);
      assert ka[|password|] == '\0';
      assert |attempt| <= |password|;
      assert kp[|attempt|] == '\0';
      assert |password| == |attempt|;
      assert forall i :: 0 <= i < |password| ==> password[i] == kp[i] == ka[i] == attempt[i];
    }
  }

  /** A password shorter than the key opens it, followed by its NUL. */
  lemma ShortKeyPrefix(password: string)
    requires |password| < KeyBytes
    ensures EffectiveKey(password)[..|password| + 1] == password + ['\0']
  {
  }

  /**
   * Only the first 72 bytes count: every attempt that starts with the same
   * 72 bytes as a long password verifies against its digest.
   */
  lemma LongPasswordsTruncated(password: string, attempt: string, salt: Salt)
    requires KeyBytes <= |password| && KeyBytes <= |attempt|
    requires attempt[..KeyBytes] == password[..KeyBytes]
    ensures Verify(Hash(password, salt), attempt)
  {
    assert (password + ['\0'])[..KeyBytes] == password[..KeyBytes];
    assert (attempt + ['\0'])[..KeyBytes] == attempt[..KeyBytes];
  }

  /** Repeating a whole period does not change a cyclic stream. */
  lemma {:induction false} CycleTwice(s: seq<char>, n: nat)
    requires |s| > 0
    ensures Cycle(s + s, n) == Cycle(s, n)
    decreases n
  {
    if n <= |s| {
      assert (s + s)[..n] == s[..n];
    } else if n <= 2 * |s| {
      assert (s + s)[..n] == s + s[..n - |s|];
    } else {
      CycleTwice(s, n - 2 * |s|);
      assert Cycle(s, n - |s|) == s + Cycle(s, n - 2 * |s|);
      assert s + s + Cycle(s, n - 2 * |s|) == s + (s + Cycle(s, n - 2 * |s|));
    }
  }

  /** The NUL bcrypt appends is part of the period: `p`, NUL, `p` verifies against the digest of `p`. */
  lemma NulRepeatVerifies(password: string, salt: Salt)
    ensures Verify(Hash(password, salt), password + ['\0'] + password)
  {
    var s := password + ['\0'];
    assert password + ['\0'] + password + ['\0'] == s + s;
    CycleTwice(s, KeyBytes);
  }
}
