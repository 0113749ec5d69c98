/**
 * The password encoder (a bcrypt `PasswordEncoder`) as a symbolic salted digest: the
 * stored text names the salt and the digest of the raw password under it, and `matches`
 * recomputes the digest with the stored salt.
 */
module Passwords {
  import opened Netstring

  /** The digest of `raw` under `salt`; the salt stands for the encoder's randomness. */
  function Encode(raw: string, salt: string): string {
    ['$'] + (Field(salt) + Field(raw))
  }

  /** `passwordEncoder.matches(raw, hashed)`. */
  predicate Matches(raw: string, hashed: string) {
    |hashed| > 0 && hashed[0] == '$' &&
    match ReadField(hashed[1..])
    case None => false
    case Some((salt, rest)) => rest == Field(raw)
  }

  /** A raw password matches its own digest under any salt. */
  lemma MatchesEncode(raw: string, salt: string)
    ensures Matches(raw, Encode(raw, salt))
  {
    assert Encode(raw, salt)[1..] == Field(salt) + Field(raw);
    ReadFieldOf(salt, Field(raw));
  }

  /** Only the password a digest was made from matches it. */
  lemma MatchesOnlyOwn(raw: string, other: string, salt: string)
    requires Matches(other, Encode(raw, salt))
    ensures other == raw
  {
    assert Encode(raw, salt)[1..] == Field(salt) + Field(raw);
    ReadFieldOf(salt, Field(raw));
    assert Field(other) + [] == Field(raw) + [];
    FieldInjective(other, [], raw, []);
  }

  /** The stored digest is never the raw text itself. */
  lemma EncodeIsNotRaw(raw: string, salt: string)
    ensures Encode(raw, salt) != raw
  {
    assert |Field(raw)| > |raw|;
  }
}
